/**
 The rule that sets a memory pin's opacity (`getOpacity` in script.js).
 A pin fades linearly with the time since the pin's timestamp: fully opaque
 at that moment, half transparent after just under three weeks, and no clamping at either end, so a future timestamp gives an
 opacity above 1 and a very old one an opacity below 0.

 Time is counted in whole milliseconds (`int`); opacity is an exact `real`.
 */
module Freshness {

  /** Milliseconds after which a pin's opacity reaches zero (just under 42 days). */
  const DecayWindow: int := 3628000000

  /** Just under three weeks in milliseconds: the age at which a pin is half
      faded. */
  const HalfLife: int := 1814000000

  /** The opacity of a pin whose timestamp lies `elapsed`
      milliseconds in the past. */
  function Opacity(elapsed: int): (r: real)
    ensures r == 1.0 <==> elapsed == 0
    ensures r == 0.5 <==> elapsed == HalfLife
    ensures r == 0.0 <==> elapsed == DecayWindow
    ensures r > 1.0 <==> elapsed < 0
    ensures r < 0.0 <==> elapsed > DecayWindow
    ensures 0.0 <= r <= 1.0 <==> 0 <= elapsed <= DecayWindow
  {
    1.0 - elapsed as real / DecayWindow as real
  }

  /** `getOpacity(timestamp)`, with the clock reading `now` passed in
      instead of read from `new Date()`. */
  function GetOpacity(timestamp: int, now: int): (r: real)
    ensures timestamp == now ==> r == 1.0
    ensures timestamp > now <==> r > 1.0
    ensures now - timestamp > DecayWindow <==> r < 0.0
  {
    Opacity(now - timestamp)
  }

  /** The age at which a pin reaches opacity `o`. */
  function ElapsedFor(o: real): real {
    (1.0 - o) * DecayWindow as real
  }

  /** `ElapsedFor` inverts `Opacity`: a pin of age `elapsed` has opacity `o`
      exactly when `elapsed` is the age `ElapsedFor(o)`. */
  lemma OpacityInverse(elapsed: int, o: real)
    ensures Opacity(elapsed) == o <==> elapsed as real == ElapsedFor(o)
  {
  }

  /** An older pin is strictly fainter. */
  lemma OpacityStrictlyDecreasing(e1: int, e2: int)
    requires e1 < e2
    ensures Opacity(e1) > Opacity(e2)
  {
  }

  /** The opacity lost between two ages is proportional to the time between
      them: every millisecond costs the same amount. */
  lemma OpacityLinear(e1: int, e2: int)
    ensures Opacity(e1) - Opacity(e2) == (e2 - e1) as real / DecayWindow as real
  {
  }

  /** At a fixed clock reading, a later pin timestamp gives a strictly
      brighter pin. */
  lemma GetOpacityMonotone(t1: int, t2: int, now: int)
    requires t1 < t2
    ensures GetOpacity(t1, now) < GetOpacity(t2, now)
  {
    OpacityStrictlyDecreasing(now - t2, now - t1);
  }
}
