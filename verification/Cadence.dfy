/** What an observed cadence argues about a heartbeat's declared period. */
module Cadence {
  import opened Common

  type Duration = nat            // nanoseconds

  const SECOND: nat := 1_000_000_000
  const MIN_CADENCE_SAMPLES: nat := 5
  const TOO_LOOSE_FACTOR: nat := 4
  const MAX_SECS: nat := 0xFFFF_FFFF_FFFF_FFFF

  datatype Advice = TooTight(suggestedPeriod: Duration) | TooLoose(suggestedPeriod: Duration)

  function StepFor(secs: nat): (step: nat)
    ensures step > 0
  {
    if secs < 600 then 60
    else if secs < 3600 then 300
    else if secs < 21_600 then 900
    else 3600
  }

  function RoundUpSecs(secs: nat): nat {
    var step := StepFor(secs);
    (secs + step - 1) / step * step
  }

  /** The part below a second is dropped before rounding. */
  function RoundUp(d: Duration): Duration { RoundUpSecs(d / SECOND) * SECOND }

  function AdviceFor(samples: nat, medianGap: Duration, downAfter: Duration): Option<Advice> {
    if samples < MIN_CADENCE_SAMPLES || medianGap == 0 then None
    else if medianGap > downAfter then Some(TooTight(RoundUp(medianGap)))
    else if downAfter >= medianGap * TOO_LOOSE_FACTOR then Some(TooLoose(RoundUp(medianGap * 2)))
    else None
  }

  // ----- Rounding -----

  /** Never below, less than a step above, and on a step. */
  lemma {:induction false} RoundUpBracket(secs: nat)
    ensures secs <= RoundUpSecs(secs) < secs + StepFor(secs)
    ensures RoundUpSecs(secs) % StepFor(secs) == 0
    ensures RoundUpSecs(secs) == secs <==> secs % StepFor(secs) == 0
  {
    var step := StepFor(secs);
    var q := (secs + step - 1) / step;
    assert secs + step - 1 == q * step + (secs + step - 1) % step;
    Multiple(q, step);
    if secs % step == 0 {
      assert secs == secs / step * step;
    }
  }

  lemma Multiple(q: nat, step: nat)
    requires step == 60 || step == 300 || step == 900 || step == 3600
    ensures q * step % step == 0
  {
  }

  /** Rounding settles: a rounded number is left alone, also where it crosses into the next bracket. */
  lemma {:induction false} RoundUpSettles(secs: nat)
    ensures RoundUpSecs(RoundUpSecs(secs)) == RoundUpSecs(secs)
  {
    RoundUpBracket(secs);
    RoundUpBracket(RoundUpSecs(secs));
    var r := RoundUpSecs(secs);
    assert r % StepFor(r) == 0;
  }

  lemma {:induction false} RoundUpMonotone(a: nat, b: nat)
    requires a <= b
    ensures RoundUpSecs(a) <= RoundUpSecs(b)
  {
    RoundUpBracket(a);
    RoundUpBracket(b);
    if StepFor(a) == StepFor(b) {
      var step := StepFor(a);
      assert (a + step - 1) / step <= (b + step - 1) / step;
    }
  }

  // ----- Adopting the advice -----

  /** Between one second and a minute everything rounds to a minute; beyond, to less than twice. */
  lemma {:induction false} RoundUpRange(secs: nat)
    ensures secs == 0 ==> RoundUpSecs(secs) == 0
    ensures 1 <= secs <= 60 ==> RoundUpSecs(secs) == 60
    ensures secs > 60 ==> RoundUpSecs(secs) < 2 * secs
  {
  }

  /** Rounded up, a gap of more than 15 seconds stays under four times itself; a shorter one does not. */
  lemma {:induction false} UnderFourGaps(gap: Duration)
    requires gap > 0
    ensures RoundUp(gap) < gap * TOO_LOOSE_FACTOR <==> gap > 15 * SECOND || gap < SECOND
    ensures RoundUp(gap * 2) < gap * TOO_LOOSE_FACTOR <==> gap > 15 * SECOND || gap * 2 < SECOND
  {
    var one, two := gap / SECOND, gap * 2 / SECOND;
    assert gap == one * SECOND + gap % SECOND && gap * 2 == two * SECOND + gap * 2 % SECOND;
    RoundUpRange(one);
    RoundUpRange(two);
  }

  /** The rounded gap covers the gap unless a fraction of a second sits on a round number. */
  lemma {:induction false} CoversGap(gap: Duration)
    ensures RoundUp(gap) >= gap <==> gap % SECOND == 0 || (gap / SECOND) % StepFor(gap / SECOND) != 0
    ensures gap * 2 >= SECOND ==> RoundUp(gap * 2) >= gap
  {
    RoundUpBracket(gap / SECOND);
    RoundUpBracket(gap * 2 / SECOND);
    assert gap == gap / SECOND * SECOND + gap % SECOND;
  }

  /** Below the range where the source's arithmetic would overflow. */
  predicate InRange(gap: Duration) { gap * TOO_LOOSE_FACTOR / SECOND <= MAX_SECS - 3600 }

  function Adopted(samples: nat, gap: Duration, downAfter: Duration): Option<Advice>
    requires AdviceFor(samples, gap, downAfter).Some?
  {
    AdviceFor(samples, gap, AdviceFor(samples, gap, downAfter).value.suggestedPeriod)
  }

  /** Adopting the suggested period with no grace ends the advice, exactly when the median gap is more
      than 15 seconds and, for a period that was too tight, its fraction of a second is not all that
      takes it past a round number. */
  lemma {:induction false} AdviceSettlesIff(samples: nat, gap: Duration, downAfter: Duration)
    requires InRange(gap) && AdviceFor(samples, gap, downAfter).Some?
    ensures
      var secs := gap / SECOND;
      Adopted(samples, gap, downAfter).None? <==>
        gap > 15 * SECOND &&
        (gap > downAfter ==> gap % SECOND == 0 || secs % StepFor(secs) != 0)
  {
    UnderFourGaps(gap);
    CoversGap(gap);
    var p := AdviceFor(samples, gap, downAfter).value.suggestedPeriod;
    assert Adopted(samples, gap, downAfter).None? <==> gap <= p && p < gap * TOO_LOOSE_FACTOR;
  }

  /** On whole seconds: exactly from 16 seconds on. */
  lemma {:induction false} WholeSecondsSettleIff(samples: nat, secs: nat, downAfter: Duration)
    requires InRange(secs * SECOND) && AdviceFor(samples, secs * SECOND, downAfter).Some?
    ensures Adopted(samples, secs * SECOND, downAfter).None? <==> secs >= 16
  {
    AdviceSettlesIff(samples, secs * SECOND, downAfter);
  }

  /** A job every ten seconds with five seconds' allowance is told a minute, which is then too loose, and
      is told a minute again. */
  lemma {:induction false} TenSecondsNeverSettle()
    ensures AdviceFor(5, 10 * SECOND, 5 * SECOND) == Some(TooTight(60 * SECOND))
    ensures Adopted(5, 10 * SECOND, 5 * SECOND) == Some(TooLoose(60 * SECOND))
  {
  }

  // ----- In seconds -----

  /** Up to ten minutes to the minute, up to an hour to five, up to six hours to fifteen, then to the hour. */
  lemma {:induction false} RoundingTable(secs: nat)
    ensures
      var r := RoundUp(secs * SECOND) / SECOND;
      (secs < 600 ==> r % 60 == 0 && secs <= r < secs + 60) &&
      (600 <= secs < 3600 ==> r % 300 == 0 && secs <= r < secs + 300) &&
      (3600 <= secs < 21_600 ==> r % 900 == 0 && secs <= r < secs + 900) &&
      (21_600 <= secs ==> r % 3600 == 0 && secs <= r < secs + 3600)
  {
    assert secs * SECOND / SECOND == secs;
    assert RoundUpSecs(secs) * SECOND / SECOND == RoundUpSecs(secs);
    RoundUpBracket(secs);
  }

  /** Ninety minutes, not eighty-three. */
  lemma {:induction false} NinetyNotEightyThree()
    ensures RoundUp(83 * 60 * 1_000_000_000) == 90 * 60 * 1_000_000_000
  {
  }

  /** Advice needs five measured gaps and a gap at all; too tight is a median above the time allowed, too loose
      a time allowed of four medians and more; the first suggests the gap and the second twice the gap, rounded
      up. */
  lemma {:induction false} AdviceTable(samples: nat, gap: Duration, downAfter: Duration)
    ensures samples < 5 || gap == 0 ==> AdviceFor(samples, gap, downAfter).None?
    ensures samples >= 5 && gap > 0 ==>
      var a := AdviceFor(samples, gap, downAfter);
      (a.Some? && a.value.TooTight? <==> gap > downAfter) &&
      (a.Some? && a.value.TooLoose? <==> downAfter >= 4 * gap) &&
      (a.None? <==> gap <= downAfter < 4 * gap) &&
      (a.Some? ==>
         var base := if gap > downAfter then gap else 2 * gap;
         var secs, r := base / 1_000_000_000, a.value.suggestedPeriod / 1_000_000_000;
         a.value.suggestedPeriod == r * 1_000_000_000 && secs <= r < secs + 3600)
  {
    RoundUpBracket(gap / SECOND);
    RoundUpBracket(gap * 2 / SECOND);
    assert RoundUpSecs(gap / SECOND) * SECOND / SECOND == RoundUpSecs(gap / SECOND);
    assert RoundUpSecs(gap * 2 / SECOND) * SECOND / SECOND == RoundUpSecs(gap * 2 / SECOND);
  }
}
