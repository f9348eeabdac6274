/**
 * The crab's vertical motion: `jump` launches it, `update_crab` integrates
 * one tick of the arc and clamps it back onto the ground. Rows grow
 * downward, so a jump makes `y` smaller.
 */
module Physics {

  const LaunchVelocity: real := 1.5
  const Gravity: real := 0.2

  /** The crab's row `crab_y`, its `jump_velocity` and its `is_jumping` flag. */
  datatype Body = Body(y: real, velocity: real, jumping: bool)

  /** Resting on the ground row. */
  function Rest(ground: real): Body {
    Body(ground, 0.0, false)
  }

  /** Never below the ground, and exactly at rest whenever not jumping. */
  ghost predicate Consistent(b: Body, ground: real) {
    b.y <= ground && (!b.jumping ==> b == Rest(ground))
  }

  /** `jump`: ignored in the air, otherwise launches without moving the crab. */
  function Jumped(b: Body): (r: Body)
    ensures b.jumping ==> r == b
    ensures !b.jumping ==> r == Body(b.y, LaunchVelocity, true)
    ensures forall g :: Consistent(b, g) ==> Consistent(r, g)
  {
    if b.jumping then b else b.(jumping := true, velocity := LaunchVelocity)
  }

  /** `update_crab`: one tick of the jump arc, landing when it reaches the ground. */
  function Fall(b: Body, ground: real): (r: Body)
    ensures !b.jumping ==> r == b
    ensures b.jumping ==> r.y <= ground
    ensures b.jumping ==> (r.jumping <==> b.y - b.velocity < ground)
    ensures r.jumping ==> r.y == b.y - b.velocity && r.velocity == b.velocity - Gravity
    ensures b.jumping && !r.jumping ==> r == Rest(ground)
    ensures Consistent(b, ground) ==> Consistent(r, ground)
  {
    if !b.jumping then b
    else
      var y, v := b.y - b.velocity, b.velocity - Gravity;
      if y >= ground then Rest(ground) else Body(y, v, true)
  }

  /** The body after `n` ticks of `update_crab` with no jump requested. */
  function Flight(b: Body, ground: real, n: nat): (r: Body)
    ensures Consistent(b, ground) ==> Consistent(r, ground)
  {
    if n == 0 then b else Fall(Flight(b, ground, n - 1), ground)
  }

  lemma {:induction false} FlightFirstStep(b: Body, ground: real, n: nat)
    ensures Flight(b, ground, n + 1) == Flight(Fall(b, ground), ground, n)
  {
    if n > 0 {
      FlightFirstStep(b, ground, n - 1);
    }
  }

  /** 1 while the velocity is still above -Gravity (rising or turning), 0 afterwards. */
  ghost function Phase(b: Body): nat {
    if b.velocity > -Gravity then 1 else 0
  }

  /**
   * Ticks left in the current phase, roughly: while turning, the velocity
   * loses Gravity per tick; while falling, the height above the ground
   * shrinks by at least Gravity per tick.
   */
  ghost function Countdown(b: Body, ground: real): nat
    requires b.y <= ground
  {
    if b.velocity > -Gravity then ((b.velocity + Gravity) * 5.0).Floor
    else ((ground - b.y) * 5.0).Floor
  }

  /** Whatever the state, a crab left alone lands and comes to rest. */
  lemma {:induction false} EventuallyLands(b: Body, ground: real)
    requires Consistent(b, ground)
    ensures exists n: nat :: Flight(b, ground, n) == Rest(ground)
    decreases Phase(b), Countdown(b, ground)
  {
    if !b.jumping {
      assert Flight(b, ground, 0) == Rest(ground);
    } else {
      var next := Fall(b, ground);
      if !next.jumping {
        assert Flight(b, ground, 1) == Rest(ground);
      } else {
        EventuallyLands(next, ground);
        var n: nat :| Flight(next, ground, n) == Rest(ground);
        FlightFirstStep(b, ground, n);
        assert Flight(b, ground, n + 1) == Rest(ground);
      }
    }
  }

  /** Height above the ground `k` ticks after a launch, in tenths of a row: k(16 - k). */
  function RiseTenths(k: int): int {
    k * (16 - k)
  }

  function Rise(k: int): real {
    RiseTenths(k) as real / 10.0
  }

  /** Each tick adds the current velocity, (17 - 2k) tenths, to the height. */
  lemma RiseStep(k: int)
    ensures RiseTenths(k) == RiseTenths(k - 1) + 17 - 2 * k
  {
    assert (k - 1) * (16 - (k - 1)) == k * (16 - k) - 17 + 2 * k;
  }

  /**
   * Above the ground strictly between launch and the sixteenth tick, at least
   * 2.8 rows up from the second to the fourteenth, never above 6.4.
   */
  lemma RiseBounds(k: int)
    ensures 0 < k < 16 ==> 0 < RiseTenths(k)
    ensures 1 < k < 15 ==> 28 <= RiseTenths(k)
    ensures k == 1 || k == 15 ==> RiseTenths(k) == 15
    ensures RiseTenths(k) <= 64
  {
    var d := k - 8;
    assert 64 - k * (16 - k) == d * d;
    if -6 <= d <= 6 {
      assert d * d <= 36;
    }
  }

  /** The first fifteen ticks of a jump from rest follow the parabola Rise. */
  lemma {:induction false} JumpArc(ground: real, k: nat)
    requires k <= 15
    ensures Flight(Jumped(Rest(ground)), ground, k)
         == Body(ground - Rise(k), LaunchVelocity - Gravity * k as real, true)
  {
    if k > 0 {
      JumpArc(ground, k - 1);
      RiseStep(k);
      RiseBounds(k);
    }
  }

  /**
   * A jump from rest lasts exactly sixteen ticks and peaks 6.4 rows above
   * the ground, eight ticks in.
   */
  lemma JumpFromRest(ground: real)
    ensures forall k :: 1 <= k <= 15 ==> Flight(Jumped(Rest(ground)), ground, k).jumping
    ensures Flight(Jumped(Rest(ground)), ground, 16) == Rest(ground)
    ensures Flight(Jumped(Rest(ground)), ground, 8).y == ground - 6.4
    ensures forall k :: 0 <= k <= 16 ==> ground - 6.4 <= Flight(Jumped(Rest(ground)), ground, k).y
  {
    forall k | 0 <= k <= 15
      ensures Flight(Jumped(Rest(ground)), ground, k).jumping
      ensures ground - 6.4 <= Flight(Jumped(Rest(ground)), ground, k).y
    {
      JumpArc(ground, k);
      RiseBounds(k);
    }
    JumpArc(ground, 15);
    JumpArc(ground, 8);
    RiseStep(16);
  }
}
