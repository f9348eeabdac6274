/**
 * The five-row variant of the game: fish always swim one row above the
 * ground and hit the crab, in the normal two-column box, when the truncated
 * rows are at most one apart.
 */
module DinoRunGame {
  import opened Grid
  import opened Controls
  import opened Obstacles
  import Physics
  import Scoring

  const Width: int := 60
  const Height: int := 5
  /** The crab's fixed column. */
  const CrabPos: int := 5
  /** The row the crab rests on and ground obstacles sit on. */
  const Ground: int := Height - 2

  /** The one row fish spawn at. */
  const FishRow: int := Height - 3

  /** Ground obstacles on the ground row, fish on the fish row. */
  predicate WellPlaced(o: Obstacle) {
    o.y == if o.kind == Fish then FishRow else Ground
  }

  /** The obstacle `add_obstacle` creates at the right edge. */
  function NewObstacle(kind: Kind): (o: Obstacle)
    ensures WellPlaced(o) && o.kind == kind && o.x == (Width - 1) as real
  {
    Obstacle((Width - 1) as real, if kind != Fish then Ground else FishRow, kind)
  }

  /** The crab occupies columns `range(crab_pos, crab_pos + 2)`. */
  function CrabColumns(): Columns {
    Columns(CrabPos, CrabPos + 2)
  }

  /**
   * One obstacle against the crab: every obstacle covers two columns; a fish
   * hits when the truncated rows are at most one apart, a ground obstacle
   * when they are equal.
   */
  predicate Hit(crabY: real, o: Obstacle): (hit: bool)
    ensures hit ==> CrabPos - 1 <= Trunc(o.x) <= CrabPos + 1
  {
    var col := Trunc(o.x);
    var row := Trunc(crabY);
    Meet(CrabColumns(), Columns(col, col + 2))
    && if o.kind == Fish then -1 <= row - o.y <= 1 else row == o.y
  }

  /** `check_collision`: some obstacle, searched from the front, hits the crab. */
  function CheckCollision(crabY: real, obs: seq<Obstacle>): (hit: bool)
    ensures hit <==> exists o :: o in obs && Hit(crabY, o)
  {
    if obs == [] then false else Hit(crabY, obs[0]) || CheckCollision(crabY, obs[1..])
  }

  /** The hit box in plain column numbers: the obstacle's truncated column is within one of the crab's. */
  lemma HitWindow(crabY: real, o: Obstacle)
    ensures Hit(crabY, o) <==>
      CrabPos - 1 <= Trunc(o.x) <= CrabPos + 1
      && if o.kind == Fish then -1 <= Trunc(crabY) - o.y <= 1 else Trunc(crabY) == o.y
  {
  }

  /** The order of the obstacle list does not affect the outcome. */
  lemma CollisionOrderIndependent(crabY: real, a: seq<Obstacle>, b: seq<Obstacle>)
    requires multiset(a) == multiset(b)
    ensures CheckCollision(crabY, a) == CheckCollision(crabY, b)
  {
    if o :| o in a && Hit(crabY, o) {
      assert o in multiset(b);
    }
    if o :| o in b && Hit(crabY, o) {
      assert o in multiset(a);
    }
  }

  /**
   * A crab on the ground is one row from the fish row, inside the fish
   * tolerance: it meets every obstacle in its column window, fish included.
   */
  lemma GroundedCrab(obs: seq<Obstacle>)
    requires forall o :: o in obs ==> WellPlaced(o)
    ensures CheckCollision(Ground as real, obs) <==>
      exists o :: o in obs && CrabPos - 1 <= Trunc(o.x) <= CrabPos + 1
  {
  }

  /**
   * A jump from rest clears a fish in the crab's column window only from its
   * second to its fourteenth tick; on the first and the fifteenth the crab is
   * 1.5 rows up, which truncates to the row just above the fish.
   */
  lemma JumpPastFish(k: nat, o: Obstacle)
    requires 1 <= k <= 15 && o.kind == Fish && WellPlaced(o)
    requires CrabPos - 1 <= Trunc(o.x) <= CrabPos + 1
    ensures Hit(Physics.Flight(Physics.Jumped(Physics.Rest(Ground as real)), Ground as real, k).y, o)
        <==> k == 1 || k == 15
  {
    Physics.JumpArc(Ground as real, k);
    Physics.RiseBounds(k);
    HitWindow(Physics.Flight(Physics.Jumped(Physics.Rest(Ground as real)), Ground as real, k).y, o);
  }

  /** Ground obstacles only ever hit a crab that is exactly on the ground. */
  lemma GroundObstacleNeedsGroundedCrab(crabY: real, o: Obstacle)
    requires crabY <= Ground as real && WellPlaced(o) && o.kind != Fish
    ensures Hit(crabY, o) ==> crabY == Ground as real
  {
  }

  /** `update_obstacles` keeps every obstacle on its rows, and on screen. */
  lemma AdvanceKeepsPlacement(obs: seq<Obstacle>, speed: real)
    requires forall o :: o in obs ==> WellPlaced(o)
    ensures forall o :: o in Advance(obs, speed) ==> WellPlaced(o) && 0.0 < o.x
  {
    forall o | o in Advance(obs, speed)
      ensures WellPlaced(o) && 0.0 < o.x
    {
      AdvanceSurvivors(obs, speed, o);
    }
  }

  /** The state of one game; the fields are those of the Python object. */
  class CrabCrawl {
    var crabY: real
    var isJumping: bool
    var jumpVelocity: real
    var obstacles: seq<Obstacle>
    var score: int
    var gameOver: bool
    var obstacleSpeed: real
    var obstacleFrequency: int
    var frameCount: int

    function Body(): Physics.Body
      reads this`crabY, this`jumpVelocity, this`isJumping
    {
      Physics.Body(crabY, jumpVelocity, isJumping)
    }

    function Progress(): Scoring.Progress
      reads this`score, this`obstacleSpeed, this`obstacleFrequency
    {
      Scoring.Progress(score, obstacleSpeed, obstacleFrequency)
    }

    /**
     * The crab is never below the ground and rests when not jumping; the
     * difficulty knobs are the ones the score has earned; every obstacle is
     * on screen and on its kind's rows.
     */
    ghost predicate Valid()
      reads this
    {
      CrabValid() && ProgressValid() && ObstaclesValid() && 0 <= frameCount
    }

    ghost predicate CrabValid()
      reads this`crabY, this`jumpVelocity, this`isJumping
    {
      Physics.Consistent(Body(), Ground as real)
    }

    ghost predicate ProgressValid()
      reads this`score, this`obstacleSpeed, this`obstacleFrequency
    {
      && 0 <= score
      && Progress() == Scoring.After(score)
      && 1.0 <= obstacleSpeed <= 2.0 && 24 <= obstacleFrequency <= 40
    }

    ghost predicate ObstaclesValid()
      reads this`obstacles
    {
      forall o :: o in obstacles ==> WellPlaced(o) && 0.0 < o.x
    }

    constructor ()
      ensures Valid()
      ensures Body() == Physics.Rest(Ground as real)
      ensures obstacles == [] && score == 0 && frameCount == 0 && !gameOver
      ensures obstacleSpeed == 1.0 && obstacleFrequency == 40
    {
      crabY := Ground as real;
      isJumping := false;
      jumpVelocity := 0.0;
      obstacles := [];
      score := 0;
      gameOver := false;
      obstacleSpeed := 1.0;
      obstacleFrequency := 40;
      frameCount := 0;
      Scoring.Bounds(0);
    }

    method Jump()
      requires Valid()
      modifies this`isJumping, this`jumpVelocity
      ensures Valid()
      ensures Body() == Physics.Jumped(old(Body()))
    {
      if !isJumping {
        isJumping := true;
        jumpVelocity := Physics.LaunchVelocity;
      }
    }

    method UpdateCrab()
      requires Valid()
      modifies this`crabY, this`jumpVelocity, this`isJumping
      ensures Valid()
      ensures Body() == Physics.Fall(old(Body()), Ground as real)
    {
      if isJumping {
        crabY := crabY - jumpVelocity;
        jumpVelocity := jumpVelocity - Physics.Gravity;
        if crabY >= Ground as real {
          crabY := Ground as real;
          isJumping := false;
          jumpVelocity := 0.0;
        }
      }
    }

    /** `kind` stands for the random choice. */
    method AddObstacle(kind: Kind)
      requires Valid()
      modifies this`obstacles
      ensures Valid()
      ensures obstacles == Spawn(old(obstacles), frameCount, obstacleFrequency, NewObstacle(kind))
    {
      if frameCount % obstacleFrequency == 0 {
        var row := if kind != Fish then Ground else FishRow;
        obstacles := obstacles + [Obstacle((Width - 1) as real, row, kind)];
      }
    }

    /** The loop of `update_obstacles` that moves each obstacle left in place. */
    method ShiftObstacles()
      modifies this`obstacles
      ensures obstacles == Shift(old(obstacles), obstacleSpeed)
    {
      ghost var before := obstacles;
      var i := 0;
      while i < |obstacles|
        invariant 0 <= i <= |obstacles| == |before|
        invariant obstacles[..i] == Shift(before[..i], obstacleSpeed)
        invariant obstacles[i..] == before[i..]
      {
        ShiftSnoc(before[..i], before[i], obstacleSpeed);
        assert before[..i + 1] == before[..i] + [before[i]];
        obstacles := obstacles[i := obstacles[i].(x := obstacles[i].x - obstacleSpeed)];
        i := i + 1;
      }
      assert obstacles == obstacles[..i] && before == before[..i];
    }

    method UpdateObstacles()
      requires Valid()
      modifies this`obstacles
      ensures Valid()
      ensures obstacles == Advance(old(obstacles), obstacleSpeed)
    {
      AdvanceKeepsPlacement(obstacles, obstacleSpeed);
      ShiftObstacles();
      obstacles := KeepOnScreen(obstacles);
    }

    method UpdateScore()
      requires Valid()
      modifies this`score, this`obstacleSpeed, this`obstacleFrequency
      ensures Valid()
      ensures Progress() == Scoring.Next(old(Progress()))
    {
      score := score + 1;
      if score % 200 == 0 && obstacleSpeed < 2.0 {
        obstacleSpeed := obstacleSpeed + 0.1;
      }
      if score % 300 == 0 && obstacleFrequency > 25 {
        obstacleFrequency := obstacleFrequency - 2;
      }
      Scoring.Bounds(score);
    }

    /** The "update game state" block of a tick: crab, spawn, obstacles, score. */
    method UpdateState(kind: Kind)
      requires Valid()
      modifies this`crabY, this`jumpVelocity, this`isJumping, this`obstacles
      modifies this`score, this`obstacleSpeed, this`obstacleFrequency
      ensures Valid()
      ensures Body() == Physics.Fall(old(Body()), Ground as real)
      ensures obstacles == Advance(
        Spawn(old(obstacles), frameCount, old(obstacleFrequency), NewObstacle(kind)), old(obstacleSpeed))
      ensures Progress() == Scoring.Next(old(Progress()))
    {
      UpdateCrab();
      AddObstacle(kind);
      UpdateObstacles();
      UpdateScore();
    }

    /**
     * One iteration of the game loop with key `key`; `kind` is the random
     * draw `add_obstacle` would make. A quit key leaves
     * everything untouched; otherwise the crab moves, an obstacle may spawn,
     * the obstacles advance, the score rises and then collisions are checked,
     * so the colliding tick is scored.
     */
    method Tick(key: Key, kind: Kind) returns (quit: bool)
      requires Valid() && !gameOver
      modifies this
      ensures Valid()
      ensures quit <==> IsQuit(key)
      ensures quit ==> unchanged(this)
      ensures !quit ==> Body() == Physics.Fall(
        if IsJump(key) then Physics.Jumped(old(Body())) else old(Body()), Ground as real)
      ensures !quit ==> obstacles == Advance(
        Spawn(old(obstacles), old(frameCount), old(obstacleFrequency), NewObstacle(kind)),
        old(obstacleSpeed))
      ensures !quit ==> Progress() == Scoring.Next(old(Progress()))
      ensures !quit ==> frameCount == old(frameCount) + 1
      ensures !quit ==> gameOver == CheckCollision(crabY, obstacles)
    {
      if IsJump(key) {
        Jump();
      } else if IsQuit(key) {
        return true;
      }
      quit := false;
      UpdateState(kind);
      if CheckCollision(crabY, obstacles) {
        gameOver := true;
      }
      frameCount := frameCount + 1;
    }

    /**
     * The game loop driven by scripted keys and random draws, one of each per
     * tick. It runs until a collision, a quit key or the end of the script;
     * `ticks` counts the ticks that updated the game.
     */
    method Run(keys: seq<Key>, kinds: seq<Kind>) returns (ticks: nat)
      requires Valid() && !gameOver && score == frameCount
      requires |kinds| == |keys|
      modifies this
      ensures Valid()
      ensures ticks <= |keys|
      ensures score == frameCount == old(score) + ticks
      ensures gameOver ==> CheckCollision(crabY, obstacles)
      ensures ticks < |keys| ==> gameOver || IsQuit(keys[ticks])
      ensures forall i :: 0 <= i < ticks ==> !IsQuit(keys[i])
    {
      ticks := 0;
      while ticks < |keys| && !gameOver
        invariant ticks <= |keys|
        invariant Valid()
        invariant score == frameCount == old(score) + ticks
        invariant gameOver ==> CheckCollision(crabY, obstacles)
        invariant forall i :: 0 <= i < ticks ==> !IsQuit(keys[i])
      {
        var quit := Tick(keys[ticks], kinds[ticks]);
        if quit {
          return;
        }
        ticks := ticks + 1;
      }
    }
  }
}
