/**
 * Obstacles and the two list operations of a tick: `add_obstacle` appends a
 * newly spawned one, `update_obstacles` moves every one left and drops
 * those that have left the screen.
 */
module Obstacles {

  /** The three obstacle types; the first two sit on the ground. */
  datatype Kind = Octopus | Squid | Fish

  /** One obstacle record: column `x`, row `y` and type. */
  datatype Obstacle = Obstacle(x: real, y: int, kind: Kind)

  /**
   * `add_obstacle`: exactly one obstacle `o` is appended, at the end, exactly
   * when the frame counter is a multiple of the spawn period; the obstacles
   * already there are kept as they are.
   */
  function Spawn(obs: seq<Obstacle>, frame: int, frequency: int, o: Obstacle): (r: seq<Obstacle>)
    requires frequency > 0
    ensures |r| == |obs| + 1 <==> frame % frequency == 0
    ensures |r| == |obs| || |r| == |obs| + 1
    ensures r[..|obs|] == obs
    ensures |r| == |obs| + 1 ==> r[|obs|] == o
  {
    if frame % frequency == 0 then obs + [o] else obs
  }

  /** The first loop of `update_obstacles`: each column decreases by `speed`. */
  function Shift(obs: seq<Obstacle>, speed: real): (r: seq<Obstacle>)
    ensures |r| == |obs|
    ensures forall i :: 0 <= i < |obs| ==>
      r[i].x == obs[i].x - speed && r[i].y == obs[i].y && r[i].kind == obs[i].kind
  {
    if obs == [] then [] else [obs[0].(x := obs[0].x - speed)] + Shift(obs[1..], speed)
  }

  /** The comprehension of `update_obstacles`: keep what is still on screen, `x > 0`. */
  function Prune(obs: seq<Obstacle>): (r: seq<Obstacle>)
    ensures |r| <= |obs|
    ensures forall o :: o in r ==> o in obs && o.x > 0.0
    ensures forall o :: o in obs && o.x > 0.0 ==> o in r
  {
    if obs == [] then []
    else (if obs[0].x > 0.0 then [obs[0]] else []) + Prune(obs[1..])
  }

  /** Pruning keeps the order: it distributes over concatenation. */
  lemma {:induction false} PruneConcat(a: seq<Obstacle>, b: seq<Obstacle>)
    ensures Prune(a + b) == Prune(a) + Prune(b)
  {
    if a == [] {
      assert a + b == b;
    } else {
      assert (a + b)[0] == a[0];
      assert (a + b)[1..] == a[1..] + b;
      PruneConcat(a[1..], b);
    }
  }

  /** Pruning one more obstacle at the end. */
  lemma PruneSnoc(s: seq<Obstacle>, o: Obstacle)
    ensures Prune(s + [o]) == Prune(s) + (if o.x > 0.0 then [o] else [])
  {
    PruneConcat(s, [o]);
    assert [o][1..] == [];
  }

  /** Shifting one more obstacle at the end. */
  lemma ShiftSnoc(s: seq<Obstacle>, o: Obstacle, speed: real)
    ensures Shift(s + [o], speed) == Shift(s, speed) + [o.(x := o.x - speed)]
  {
  }

  /** The comprehension of `update_obstacles`: the obstacles with `x > 0`, in order. */
  method KeepOnScreen(obs: seq<Obstacle>) returns (kept: seq<Obstacle>)
    ensures kept == Prune(obs)
  {
    kept := [];
    var j := 0;
    while j < |obs|
      invariant 0 <= j <= |obs|
      invariant kept == Prune(obs[..j])
    {
      PruneSnoc(obs[..j], obs[j]);
      assert obs[..j + 1] == obs[..j] + [obs[j]];
      if obs[j].x > 0.0 {
        kept := kept + [obs[j]];
      }
      j := j + 1;
    }
    assert obs == obs[..j];
  }

  /** Shifting keeps the order: it distributes over concatenation. */
  lemma ShiftConcat(a: seq<Obstacle>, b: seq<Obstacle>, speed: real)
    ensures Shift(a + b, speed) == Shift(a, speed) + Shift(b, speed)
  {
  }

  /** The whole of `update_obstacles`. */
  function Advance(obs: seq<Obstacle>, speed: real): (r: seq<Obstacle>)
    ensures |r| <= |obs|
    ensures forall o :: o in r ==> o.x > 0.0
  {
    Prune(Shift(obs, speed))
  }

  /**
   * The survivors of `update_obstacles` are exactly the old obstacles whose
   * shifted column is still positive, each shifted, and every one is on screen.
   */
  lemma AdvanceSurvivors(obs: seq<Obstacle>, speed: real, o: Obstacle)
    ensures o in Advance(obs, speed) <==>
      exists p :: p in obs && p.x - speed > 0.0 && o == p.(x := p.x - speed)
    ensures o in Advance(obs, speed) ==> o.x > 0.0
  {
    var shifted := Shift(obs, speed);
    if o in Advance(obs, speed) {
      var i :| 0 <= i < |shifted| && shifted[i] == o;
      assert obs[i] in obs && o == obs[i].(x := obs[i].x - speed);
    }
    if p :| p in obs && p.x - speed > 0.0 && o == p.(x := p.x - speed) {
      var i :| 0 <= i < |obs| && obs[i] == p;
      assert shifted[i] == o;
    }
  }

  /** `update_obstacles` never lengthens the list and keeps its order. */
  lemma AdvanceOrder(a: seq<Obstacle>, b: seq<Obstacle>, speed: real)
    ensures Advance(a + b, speed) == Advance(a, speed) + Advance(b, speed)
    ensures |Advance(a + b, speed)| <= |a| + |b|
  {
    ShiftConcat(a, b, speed);
    PruneConcat(Shift(a, speed), Shift(b, speed));
  }
}
