/**
  Ball speed and its difficulty ramp: the number of anti-tunnelling
  sub-steps per frame, the +20 speed-up on every fifth paddle hit and the
  +10 speed-up per level, both capped at the maximum speed.
*/
module Pacing {

  /** Speed of the ball when a game starts. */
  const BASE_SPEED: int := 320
  /** The ball never goes faster than this. */
  const MAX_SPEED: int := 900
  /** Speed gained on every HITS_PER_SPEED_UP-th paddle hit. */
  const HIT_SPEED_UP: int := 20
  const HITS_PER_SPEED_UP: int := 5
  /** Speed gained on entering the next level. */
  const LEVEL_SPEED_UP: int := 10
  /** One sub-step per this much speed ... */
  const SPEED_PER_STEP: int := 450
  /** ... but never more than this many sub-steps per frame. */
  const MAX_STEPS: int := 5

  function Min(a: int, b: int): int
  {
    if a < b then a else b
  }

  /**
    `clamp(Math.ceil(speed / 450), 1, 5)`: the smallest number of sub-steps,
    between 1 and 5, each of which covers at most 450 units of speed.
  */
  function Steps(speed: int): (n: int)
    ensures 1 <= n <= MAX_STEPS
    ensures n == MAX_STEPS || speed <= SPEED_PER_STEP * n
    ensures n == 1 || speed > SPEED_PER_STEP * (n - 1)
  {
    var ceiling := -((-speed) / SPEED_PER_STEP);
    if ceiling < 1 then 1 else if ceiling > MAX_STEPS then MAX_STEPS else ceiling
  }

  /**
    Speed after the paddle hit that brings the hit counter to `hits`: +20
    (capped at MAX_SPEED) when `hits` is a multiple of 5, unchanged otherwise.
  */
  function HitSpeed(speed: int, hits: int): (s: int)
    ensures speed <= MAX_SPEED ==> speed <= s <= MAX_SPEED
    ensures s != speed ==> hits % HITS_PER_SPEED_UP == 0
    ensures hits % HITS_PER_SPEED_UP == 0 && speed + HIT_SPEED_UP <= MAX_SPEED ==> s == speed + HIT_SPEED_UP
    ensures hits % HITS_PER_SPEED_UP == 0 && speed <= MAX_SPEED <= speed + HIT_SPEED_UP ==> s == MAX_SPEED
  {
    if hits % HITS_PER_SPEED_UP == 0 then Min(MAX_SPEED, speed + HIT_SPEED_UP) else speed
  }

  /** Speed after k further paddle hits, when `hits` hits have been counted so far. */
  function SpeedAfterHits(speed: int, hits: int, k: nat): int
    decreases k
  {
    if k == 0 then speed else SpeedAfterHits(HitSpeed(speed, hits + 1), hits + 1, k - 1)
  }

  /** However many paddle hits happen, a speed within the cap stays within it and never drops. */
  lemma {:induction false} SpeedStaysCapped(speed: int, hits: int, k: nat)
    requires speed <= MAX_SPEED
    ensures speed <= SpeedAfterHits(speed, hits, k) <= MAX_SPEED
    decreases k
  {
    if k > 0 {
      SpeedStaysCapped(HitSpeed(speed, hits + 1), hits + 1, k - 1);
    }
  }

  /** a + b hits are a hits followed by b hits. */
  lemma {:induction false} SpeedAfterHitsSplit(speed: int, hits: int, a: nat, b: nat)
    ensures SpeedAfterHits(speed, hits, a + b) == SpeedAfterHits(SpeedAfterHits(speed, hits, a), hits + a, b)
    decreases a
  {
    if a > 0 {
      SpeedAfterHitsSplit(HitSpeed(speed, hits + 1), hits + 1, a - 1, b);
    }
  }

  /**
    From a count that is a multiple of 5 (a fresh game starts at 0), four
    more hits leave the speed alone and the fifth raises it by 20, capped.
  */
  lemma FifthHitSpeedsUp(speed: int, hits: int)
    requires hits % HITS_PER_SPEED_UP == 0
    ensures SpeedAfterHits(speed, hits, 4) == speed
    ensures SpeedAfterHits(speed, hits, 5) == Min(MAX_SPEED, speed + HIT_SPEED_UP)
  {
    assert (hits + 1) % 5 != 0 && (hits + 2) % 5 != 0 && (hits + 3) % 5 != 0 && (hits + 4) % 5 != 0;
    assert (hits + 5) % 5 == 0;
    calc {
      SpeedAfterHits(speed, hits, 5);
      SpeedAfterHits(speed, hits + 1, 4);
      SpeedAfterHits(speed, hits + 2, 3);
      SpeedAfterHits(speed, hits + 3, 2);
      SpeedAfterHits(speed, hits + 4, 1);
      SpeedAfterHits(Min(MAX_SPEED, speed + HIT_SPEED_UP), hits + 5, 0);
    }
  }

  /** Over 5m paddle hits from a fresh counter the speed rises by 20 per five hits until it reaches the cap. */
  lemma {:induction false} SpeedAfterRounds(speed: int, m: nat)
    requires speed <= MAX_SPEED
    ensures SpeedAfterHits(speed, 0, 5 * m) == Min(MAX_SPEED, speed + HIT_SPEED_UP * m)
    decreases m
  {
    if m > 0 {
      SpeedAfterRounds(speed, m - 1);
      SpeedAfterHitsSplit(speed, 0, 5 * (m - 1), 5);
      assert (5 * (m - 1)) % 5 == 0;
      FifthHitSpeedsUp(SpeedAfterHits(speed, 0, 5 * (m - 1)), 5 * (m - 1));
    }
  }
}
