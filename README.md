# Crab Crawl, modelled in Dafny

Crab Crawl is a terminal arcade game. A crab stands in a fixed column of a
60-column lane and jumps over or under obstacles (octopus, squid, fish)
that scroll in from the right. Every tick the game reads at most one key,
integrates the crab's jump arc, maybe spawns an obstacle, moves the
obstacles left, scores the tick and ratchets the difficulty, and then
checks for a collision, which ends the run.

The repository holds two versions of the same `CrabCrawl` class:

- `crab_crawl.py`: seven rows. Fish spawn on one of four rows above the
  ground. Fish hit within a widened column box and within half a row of
  the crab's exact height.
- `dino_run_cli.py`: five rows. Fish always spawn one row above the
  ground. Fish hit within the normal box when the truncated rows are at
  most one apart.

The model has one module per concern and one per version:

- `Grid` (`grid.dfy`): Python's `int()` as truncation toward zero, and
  column ranges.
- `Controls` (`controls.dfy`): the polled key.
- `Physics` (`physics.dfy`): `jump` and `update_crab` as functions on a
  `Body`, with landing and jump-arc lemmas.
- `Obstacles` (`obstacles.dfy`): the obstacle record and the list
  operations of `add_obstacle` and `update_obstacles`.
- `Scoring` (`scoring.dfy`): `update_score` and the closed form of the
  difficulty schedule.
- `CrabCrawlGame` (`crab_crawl.dfy`) and `DinoRunGame` (`dino_run.dfy`):
  each has the version's constants, obstacle placement and collision test,
  and a class `CrabCrawl` with the object's fields. Its methods update
  those fields in place. Each method is specified by the functions above.
  The class invariant `Valid` says four things: the crab is never below
  the ground and rests whenever it is not jumping; the difficulty knobs are
  `Scoring.After(score)`; every obstacle is on screen (`x > 0`); every
  obstacle is on its kind's rows.

Positions, velocities and speeds are exact `real`s. Rows grow downward, so
a jump makes `crab_y` smaller. In `crab_crawl.py` the ground is row 5 and
the jump peaks 6.4 rows up, at `crab_y = -1.4`; `int()` truncates toward
zero, so the crab's row there is `-1`, where flooring would give `-2`. In
`dino_run_cli.py` the ground is row 3, the peak is `crab_y = -3.4`, and
its row is `-3` (flooring would give `-4`).

Three facts about the code that the model keeps:

- `update_score` runs before `check_collision` in the same tick, so the
  tick that collides adds 1 to the score.
- The spawn period drops by 2 only while `obstacle_frequency > 25`. From
  26 it drops once more, to 24, and stays there.
- `int()` truncates toward zero, for obstacle columns and for the crab's
  row alike.

## Model

| member | source | states |
|---|---|---|
| Grid.Trunc | crab_crawl.py:89 | `int()` truncates toward zero: the result's magnitude is at most the argument's and within one of it. It is non-negative for a non-negative argument and non-positive for a negative one (0 for arguments strictly between -1 and 0) |
| Grid.Meet | crab_crawl.py:91 | the end-point test is true iff some column lies in both ranges (`any(x in b for x in a)`) |
| Scoring.Next | crab_crawl.py:155-162 | score rises by exactly 1. Speed never falls; it rises iff the new score is a multiple of 200 and speed < 2, and then by exactly 0.1. The spawn period never rises; it falls iff the new score is a multiple of 300 and the period > 25, and then by exactly 2 |
| Scoring.After | crab_crawl.py:155-162 | after n calls of `update_score` on a fresh game the score is n |
| Scoring.Schedule | crab_crawl.py:155-162 | after n ticks of a fresh game: score n, speed 1 + min(n div 200, 10)/10, period 40 - 2·min(n div 300, 8) |
| Scoring.Bounds | crab_crawl.py:159-162 | speed stays in [1, 2] and the spawn period in [24, 40], so the modulo at line 52 is always defined |
| Scoring.FirstSpeedUp | crab_crawl.py:159-160 | speed is 1.0 for every score below 200 and becomes 1.1 on the tick that makes it 200 |
| Physics.Jumped | crab_crawl.py:36-39 | a jump is ignored in the air; otherwise it sets the flag and velocity 1.5 and leaves the row. It keeps the crab consistent with the ground |
| Physics.Fall | crab_crawl.py:41-49 | nothing changes when not jumping. In the air, the row drops by the velocity and the velocity by 0.2. If the row reaches or passes the ground, the crab lands: row = ground, velocity 0, flag cleared. After a tick in the air the row is never below the ground, and a consistent crab stays consistent |
| Physics.Flight | crab_crawl.py:41-49 | any number of ticks of `update_crab` keep the crab at or above the ground and at rest whenever it is not jumping |
| Physics.EventuallyLands | crab_crawl.py:41-49 | from any consistent state, some number of ticks brings the crab to rest exactly on the ground with velocity 0 |
| Physics.JumpArc | crab_crawl.py:36-49 | for k ≤ 15 ticks after a jump from rest, the crab is airborne, (16k − k²)/10 rows up, with velocity 1.5 − 0.2k |
| Physics.JumpFromRest | crab_crawl.py:36-49 | a jump from rest stays airborne for ticks 1 to 15 and lands on tick 16. It peaks 6.4 rows up at tick 8 and never goes higher |
| Obstacles.Spawn | crab_crawl.py:51-63 | exactly one obstacle is appended, at the end, iff `frame_count % obstacle_frequency == 0`; the existing obstacles are unchanged |
| Obstacles.Shift | crab_crawl.py:66-67 | same length; each column drops by the speed; row and kind are kept |
| Obstacles.Prune | crab_crawl.py:70 | never longer. Keeps exactly the obstacles with `x > 0`: each kept one was in the list and has `x > 0`, and each such one is kept |
| Obstacles.KeepOnScreen | crab_crawl.py:70 | the comprehension's loop builds exactly `Prune` of its input |
| Obstacles.PruneConcat | crab_crawl.py:70 | pruning keeps order: it distributes over concatenation |
| Obstacles.Advance | crab_crawl.py:65-70 | `update_obstacles` as a function: never lengthens the list, and every obstacle left has `x > 0` |
| Obstacles.AdvanceSurvivors | crab_crawl.py:65-70 | after `update_obstacles`, an obstacle is present iff it is some old obstacle with `x - speed > 0`, shifted by the speed; all survivors have `x > 0` |
| Obstacles.AdvanceOrder | crab_crawl.py:65-70 | `update_obstacles` keeps relative order (it distributes over concatenation) and never lengthens the list |
| Controls.KeyMeaning | crab_crawl.py:177-180 | the jump key (space) and the quit keys (`q`, `Q`) are distinct, and no key pressed means neither |
| CrabCrawlGame.SpawnRow | crab_crawl.py:54-58 | ground kinds spawn on row `height-2`; a fish spawns on the drawn row, which lies in `[height-6, height-3]` |
| CrabCrawlGame.NewObstacle | crab_crawl.py:59-63 | the appended obstacle is at column 59, of the drawn kind, on its kind's rows; a fish is on the drawn row |
| CrabCrawlGame.Hit | crab_crawl.py:77-93 | the per-obstacle test of the loop; it can be true only when the obstacle's truncated column is within 2 of the crab's |
| CrabCrawlGame.CheckCollision | crab_crawl.py:72-95 | the search returns true iff some obstacle in the list hits the crab |
| CrabCrawlGame.HitWindow | crab_crawl.py:80-93 | a fish hits iff its truncated column is within 2 of the crab's and `|crab_y - y| ≤ 0.5`. A ground obstacle hits iff its column is within 1 of the crab's and `int(crab_y) == y` |
| CrabCrawlGame.CollisionOrderIndependent | crab_crawl.py:76-95 | lists with the same elements give the same collision result |
| CrabCrawlGame.GroundedCrab | crab_crawl.py:84-89 | a crab resting on the ground never hits a well-placed fish. It hits iff some ground obstacle's column is within 1 of its own |
| CrabCrawlGame.GroundObstacleNeedsGroundedCrab | crab_crawl.py:89 | a ground obstacle hits a crab at or above the ground only when the crab is exactly on the ground |
| CrabCrawlGame.AdvanceKeepsPlacement | crab_crawl.py:65-70 | moving the obstacles keeps each survivor on its kind's rows and on screen |
| CrabCrawlGame.CrabCrawl.constructor | crab_crawl.py:11-25 | a fresh game: crab at rest on row 5; no obstacles; score 0 and frame 0; speed 1, period 40; not over; invariant established |
| CrabCrawlGame.CrabCrawl.Jump | crab_crawl.py:36-39 | the crab's state becomes `Physics.Jumped` of the old one; only the jump fields may change |
| CrabCrawlGame.CrabCrawl.UpdateCrab | crab_crawl.py:41-49 | the crab's state becomes `Physics.Fall` of the old one, for ground row 5; only the crab fields may change |
| CrabCrawlGame.CrabCrawl.AddObstacle | crab_crawl.py:51-63 | the list becomes `Spawn` of the old list with a new obstacle at column 59 on its kind's row; the invariant is kept |
| CrabCrawlGame.CrabCrawl.ShiftObstacles | crab_crawl.py:66-67 | the in-place loop leaves the list equal to `Shift` of the old list |
| CrabCrawlGame.CrabCrawl.UpdateObstacles | crab_crawl.py:65-70 | the list becomes `Prune(Shift(old list, speed))`; the invariant (all on screen, well placed) is kept |
| CrabCrawlGame.CrabCrawl.UpdateScore | crab_crawl.py:155-162 | score, speed and period become `Scoring.Next` of the old ones; the invariant is kept |
| CrabCrawlGame.CrabCrawl.UpdateState | crab_crawl.py:182-186 | the four update calls in order: the crab gets `Fall`, the obstacles get spawn-then-advance, score and difficulty get `Next`; the invariant is kept |
| CrabCrawlGame.CrabCrawl.Tick | crab_crawl.py:174-196 | a quit key changes nothing. Otherwise: the crab gets jump-then-fall; the obstacles get spawn-then-advance; score and difficulty get `Next`; the frame counter rises by 1. `game_over` is the collision test on the new state, taken after scoring |
| CrabCrawlGame.CrabCrawl.Run | crab_crawl.py:174-196 | score and frame count both rise by one per tick and stay equal. No key before the last tick run is a quit key, and the loop stops only on a collision, the first quit key or the end of the input. A game that ended was ended by a collision. No tick runs after a collision: the loop guard tests `game_over`, and `Tick` requires it to be false |
| DinoRunGame.NewObstacle | dino_run_cli.py:54-59 | the new obstacle is at column 59, of the drawn kind, on row `height-2` for ground kinds and always on row `height-3` for fish |
| DinoRunGame.Hit | dino_run_cli.py:73-89 | the per-obstacle test of the loop; it can be true only when the obstacle's truncated column is within 1 of the crab's |
| DinoRunGame.CheckCollision | dino_run_cli.py:68-90 | the search returns true iff some obstacle in the list hits the crab |
| DinoRunGame.HitWindow | dino_run_cli.py:69-88 | every kind hits only when its truncated column is within 1 of the crab's. A fish also needs the truncated rows at most 1 apart; a ground obstacle needs them equal |
| DinoRunGame.CollisionOrderIndependent | dino_run_cli.py:72-90 | lists with the same elements give the same collision result |
| DinoRunGame.GroundedCrab | dino_run_cli.py:81-86 | a crab resting on row 3 is within the tolerance of the fish row 2. It hits iff some obstacle of any kind has its column within 1 of its own |
| DinoRunGame.JumpPastFish | dino_run_cli.py:81-83 | on ticks 1 to 15 of a jump from rest, a fish in the column window hits exactly on ticks 1 and 15 |
| DinoRunGame.GroundObstacleNeedsGroundedCrab | dino_run_cli.py:84-86 | a ground obstacle hits a crab at or above the ground only when the crab is exactly on the ground |
| DinoRunGame.AdvanceKeepsPlacement | dino_run_cli.py:61-66 | moving the obstacles keeps each survivor on its kind's row and on screen |
| DinoRunGame.CrabCrawl.constructor | dino_run_cli.py:11-25 | a fresh game: crab at rest on row 3; no obstacles; score 0 and frame 0; speed 1, period 40; not over; invariant established |
| DinoRunGame.CrabCrawl.Jump | dino_run_cli.py:36-39 | the crab's state becomes `Physics.Jumped` of the old one; only the jump fields may change |
| DinoRunGame.CrabCrawl.UpdateCrab | dino_run_cli.py:41-49 | the crab's state becomes `Physics.Fall` of the old one, for ground row 3 |
| DinoRunGame.CrabCrawl.AddObstacle | dino_run_cli.py:51-59 | the list becomes `Spawn` of the old list with `NewObstacle(kind)`; the invariant is kept |
| DinoRunGame.CrabCrawl.ShiftObstacles | dino_run_cli.py:62-63 | the in-place loop leaves the list equal to `Shift` of the old list |
| DinoRunGame.CrabCrawl.UpdateObstacles | dino_run_cli.py:61-66 | the list becomes `Prune(Shift(old list, speed))`; the invariant is kept |
| DinoRunGame.CrabCrawl.UpdateScore | dino_run_cli.py:145-152 | score, speed and period become `Scoring.Next` of the old ones; the invariant is kept |
| DinoRunGame.CrabCrawl.UpdateState | dino_run_cli.py:172-176 | the four update calls in order: `Fall`, spawn-then-advance, `Next`; the invariant is kept |
| DinoRunGame.CrabCrawl.Tick | dino_run_cli.py:164-186 | a quit key changes nothing. Otherwise: jump-then-fall; spawn-then-advance; `Next` for the score; frame counter + 1; then the collision check on the new state |
| DinoRunGame.CrabCrawl.Run | dino_run_cli.py:164-186 | score and frame count rise together by one per tick. No key before the last tick run is a quit key, and the loop stops only on a collision, the first quit key or the end of the input. A game that ended was ended by a collision. No tick runs after a collision: the loop guard tests `game_over`, and `Tick` requires it to be false |

The functions and lemmas in `Grid`, `Physics`, `Obstacles` and `Scoring`
cite `crab_crawl.py`. The same code sits in `dino_run_cli.py`:
`jump` and `update_crab` at lines 36-49, `add_obstacle` and
`update_obstacles` at lines 51-66, `update_score` at lines 145-152.

## Left out

- Terminal I/O. The model leaves out `clear_screen`, `get_key_press`, the
  raw-mode setup and restore in `run`, `time.sleep`, the start and
  game-over messages, and `main`'s replay prompt. The polled key is a `Key`
  parameter of `Tick`.
- Rendering. `render`, `draw_crab` and `draw_obstacle` only format glyphs
  for printing.
- Randomness. `random.choice` and `random.randint` become the `kind` and
  `fishRow` parameters. `fishRow` must lie in the fish band whenever the
  kind is a fish.
- Floating point. Arithmetic is exact. IEEE-754 artefacts are not
  modelled: the speed reaching 2.000000000000001, or a landing test that
  rounding decides differently.
- Unused fields. `jump_height` and `max_jump` are never read. `width`,
  `height` and `crab_pos` are never reassigned, so they are module
  constants.
- CrabCrawlGame.CrabCrawl.Run: the Python loop runs until a collision or
  a quit key. The model's loop also stops when the scripted input runs
  out, because it is driven by finite sequences of keys and random draws.
- DinoRunGame.CrabCrawl.Run: the same finite-input bound as above.
- Aliasing. Obstacles are immutable values, so the in-place `x` update of
  each dictionary becomes an update of the list element. Nothing else
  refers to these dictionaries, so nothing is lost.
