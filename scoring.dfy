/**
 * The score and the two difficulty knobs that `update_score` ratchets: the
 * obstacle speed rises by 0.1 every 200 points while below 2, the spawn
 * period falls by 2 every 300 points while above 25.
 */
module Scoring {

  datatype Progress = Progress(score: int, speed: real, frequency: int)

  /** The values a fresh game starts with. */
  const Start := Progress(0, 1.0, 40)

  /** One call of `update_score`. */
  function Next(p: Progress): (r: Progress)
    ensures r.score == p.score + 1
    ensures p.speed <= r.speed
    ensures r.speed > p.speed <==> r.score % 200 == 0 && p.speed < 2.0
    ensures r.speed > p.speed ==> r.speed == p.speed + 0.1
    ensures r.frequency <= p.frequency
    ensures r.frequency < p.frequency <==> r.score % 300 == 0 && p.frequency > 25
    ensures r.frequency < p.frequency ==> r.frequency == p.frequency - 2
  {
    var score := p.score + 1;
    var speed := if score % 200 == 0 && p.speed < 2.0 then p.speed + 0.1 else p.speed;
    var frequency := if score % 300 == 0 && p.frequency > 25 then p.frequency - 2 else p.frequency;
    Progress(score, speed, frequency)
  }

  /** The progress after `n` calls of `update_score` on a fresh game. */
  function After(n: nat): (p: Progress)
    ensures p.score == n
  {
    if n == 0 then Start else Next(After(n - 1))
  }

  function Min(a: int, b: int): int {
    if a <= b then a else b
  }

  /**
   * Closed form of the difficulty schedule: the speed has risen once per
   * completed 200 points, at most ten times; the spawn period has fallen
   * once per completed 300 points, at most eight times.
   */
  lemma {:induction false} Schedule(n: nat)
    ensures After(n) == Progress(n, 1.0 + Min(n / 200, 10) as real / 10.0, 40 - 2 * Min(n / 300, 8))
  {
    if n > 0 {
      var m := n - 1;
      Schedule(m);
      assert n / 200 == m / 200 + (if n % 200 == 0 then 1 else 0);
      assert n / 300 == m / 300 + (if n % 300 == 0 then 1 else 0);
    }
  }

  /** Speed never exceeds 2 and the spawn period never drops below 24. */
  lemma Bounds(n: nat)
    ensures 1.0 <= After(n).speed <= 2.0
    ensures 24 <= After(n).frequency <= 40
  {
    Schedule(n);
  }

  /** The first speed-up happens exactly on the tick that makes the score 200. */
  lemma FirstSpeedUp(n: nat)
    requires n <= 200
    ensures After(n).speed == if n == 200 then 1.1 else 1.0
  {
    Schedule(n);
  }
}
