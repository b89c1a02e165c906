/** The hidden reaction controls and the per-frame scheduling: the `R` key's
    multiplier cycle, the reaction probability, the number of reaction
    attempts per frame at temperature T, and the capped frame time. */
module Controls {

  /** The three settings of `reactionMul`. */
  predicate IsMultiplier(m: real) {
    m == 1.0 || m == 2.2 || m == 3.2
  }

  /** The `R` key: below 1.6 go to 2.2, below 2.5 go to 3.2, otherwise back
      to 1.0. Any value, even one outside the cycle, lands on a setting. */
  function NextMultiplier(m: real): (r: real)
    ensures IsMultiplier(r)
    ensures r == 1.0 <==> m >= 2.5
    ensures r > m <==> m < 2.5
  {
    if m < 1.6 then 2.2
    else if m < 2.5 then 3.2
    else 1.0
  }

  /** Starting from 1.0, the key visits 2.2, then 3.2, then comes back. */
  lemma MultiplierCycle()
    ensures NextMultiplier(1.0) == 2.2
    ensures NextMultiplier(2.2) == 3.2
    ensures NextMultiplier(3.2) == 1.0
  {
  }

  /** Pressing the key three times from any setting returns to it. */
  lemma MultiplierPeriod(m: real)
    requires IsMultiplier(m)
    ensures NextMultiplier(NextMultiplier(NextMultiplier(m))) == m
    ensures NextMultiplier(m) != m
  {
  }

  const BaseProbability: real := 0.020
  const TrapFactor: real := 0.35

  /** The temperature factor 0.5 + 0.75 * T of `reactionProbability`. */
  function TemperatureFactor(T: real): real {
    0.5 + 0.75 * T
  }

  /** `reactionProbability()`: base * temperature factor * multiplier * trap. */
  function ReactionProbability(T: real, mul: real, trap: bool): (p: real)
    ensures T >= 0.0 && mul >= 0.0 ==> p >= 0.0
  {
    BaseProbability * TemperatureFactor(T) * mul * (if trap then TrapFactor else 1.0)
  }

  /** Trap mode scales the probability by exactly 0.35, so it lowers any
      positive probability. */
  lemma TrapDampens(T: real, mul: real)
    ensures ReactionProbability(T, mul, true) == TrapFactor * ReactionProbability(T, mul, false)
    ensures ReactionProbability(T, mul, false) > 0.0 ==>
      ReactionProbability(T, mul, true) < ReactionProbability(T, mul, false)
  {
  }

  /** A hotter system reacts more readily, at every setting of the key. */
  lemma ProbabilityGrowsWithT(T1: real, T2: real, mul: real, trap: bool)
    requires T1 < T2 && IsMultiplier(mul)
    ensures ReactionProbability(T1, mul, trap) < ReactionProbability(T2, mul, trap)
  {
  }

  /** Within the slider's range 1..8 and the key's settings the probability
      stays between 0.00875 and 0.416: a draw u in [0, 1) fails more often
      than not, even at the hottest setting. */
  lemma ProbabilityRange(T: real, mul: real, trap: bool)
    requires 1.0 <= T <= 8.0 && IsMultiplier(mul)
    ensures 0.00875 <= ReactionProbability(T, mul, trap) <= 0.416
  {
    var q := BaseProbability * TemperatureFactor(T);
    assert 0.025 <= q <= 0.13;
    var qm := q * mul;
    if mul == 1.0 {
      assert qm == q;
    } else if mul == 2.2 {
      assert qm == 2.2 * q;
    } else {
      assert qm == 3.2 * q;
    }
    assert 0.025 <= qm <= 0.416;
    if trap {
      assert ReactionProbability(T, mul, trap) == 0.35 * qm;
    } else {
      assert ReactionProbability(T, mul, trap) == qm;
    }
  }

  /** `tries = 1 + Math.floor((T - 1) / 2)`: reaction attempts in one frame. */
  function Tries(T: real): int {
    1 + ((T - 1.0) / 2.0).Floor
  }

  /** At least one attempt exactly when T >= 1, and never more than needed:
      the count is the largest k with 2k - 1 <= T. */
  lemma TriesCharacterised(T: real)
    ensures Tries(T) >= 1 <==> T >= 1.0
    ensures (2 * Tries(T) - 1) as real <= T < (2 * Tries(T) + 1) as real
  {
    var f := ((T - 1.0) / 2.0).Floor;
    assert f as real <= (T - 1.0) / 2.0 < f as real + 1.0;
  }

  /** One more attempt every two degrees. */
  lemma TriesMonotone(T1: real, T2: real)
    requires T1 <= T2
    ensures Tries(T1) <= Tries(T2)
    ensures Tries(T2 + 2.0) == Tries(T2) + 1
  {
    TriesCharacterised(T1);
    TriesCharacterised(T2);
    TriesCharacterised(T2 + 2.0);
  }

  /** On the integer slider values 1..8 the attempts are 1, 1, 2, 2, 3, 3, 4, 4. */
  lemma TriesOnSlider(k: int)
    requires 1 <= k <= 8
    ensures Tries(k as real) == (k + 1) / 2
  {
    TriesCharacterised(k as real);
  }

  const MaxFrameTime: real := 0.033

  /** `dt = Math.min(0.033, elapsed)`: the step time never exceeds 33 ms, and a
      shorter frame is stepped by its own length. */
  function FrameTime(elapsed: real): (dt: real)
    ensures dt <= MaxFrameTime
    ensures dt == elapsed || dt == MaxFrameTime
    ensures elapsed <= MaxFrameTime <==> dt == elapsed
  {
    if elapsed < MaxFrameTime then elapsed else MaxFrameTime
  }
}
