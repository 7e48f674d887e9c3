/** Confirmed downtime of a window, from incidents. */
module Downtime {
  import opened Common
  import opened Incidents

  /** The part of `[start, end]` inside `[from, to]`, in nanoseconds. */
  function Overlap(start: Instant, end: Instant, from: Instant, to: Instant): (r: int) {
    Max(Min(end, to) - Max(start, from), 0)
  }

  function End(i: Incident, now: Instant): Instant {
    if i.endedAt.Some? then i.endedAt.value else now
  }

  /** One incident's share, in whole seconds. */
  function DownSecs(i: Incident, from: Instant, to: Instant, now: Instant): int {
    Max(Seconds(Min(End(i, now), to) - Max(i.startedAt, from)), 0)
  }

  function ConfirmedDowntimeSecs(incidents: seq<Incident>, from: Instant, to: Instant, now: Instant): int {
    if incidents == [] then 0
    else
      (if incidents[0].countsAsDowntime then DownSecs(incidents[0], from, to, now) else 0)
      + ConfirmedDowntimeSecs(incidents[1..], from, to, now)
  }

  // ----- What one incident counts -----

  /** In times, of a list of one counted incident. Open, it runs until now; closed, until its end; one that
      covers the window counts all of it, and one outside nothing. */
  lemma {:induction false} OneIncident(i: Incident, from: Instant, to: Instant, now: Instant)
    requires i.countsAsDowntime && from <= to
    ensures i.endedAt.None? && from <= i.startedAt <= now <= to ==>
      ConfirmedDowntimeSecs([i], from, to, now) == (now - i.startedAt) / 1_000_000_000
    ensures i.endedAt.Some? && from <= i.startedAt <= i.endedAt.value <= to ==>
      ConfirmedDowntimeSecs([i], from, to, now) == (i.endedAt.value - i.startedAt) / 1_000_000_000
    ensures i.startedAt <= from && to <= (if i.endedAt.Some? then i.endedAt.value else now) ==>
      ConfirmedDowntimeSecs([i], from, to, now) == (to - from) / 1_000_000_000
    ensures (i.endedAt.Some? && i.endedAt.value <= from) || (i.endedAt.None? && now <= from) || to <= i.startedAt ==>
      ConfirmedDowntimeSecs([i], from, to, now) == 0
  {
    assert ConfirmedDowntimeSecs([i], from, to, now) == DownSecs(i, from, to, now) by {
      assert [i][1..] == [];
    }
  }

  /** Cut off at either side of the window, it counts the rest. */
  lemma {:induction false} OneIncidentCutOff(i: Incident, end: Instant, from: Instant, to: Instant, now: Instant)
    requires i.countsAsDowntime && end == if i.endedAt.Some? then i.endedAt.value else now
    ensures i.startedAt <= from <= end <= to ==>
      ConfirmedDowntimeSecs([i], from, to, now) == (end - from) / 1_000_000_000
    ensures from <= i.startedAt <= to <= end ==>
      ConfirmedDowntimeSecs([i], from, to, now) == (to - i.startedAt) / 1_000_000_000
  {
    assert [i][1..] == [];
  }

  /** In any list an open incident counts as the same one closed now, one that is excluded counts nothing, and
      lists add up. */
  lemma {:induction false} ListCounts(
    before: seq<Incident>, i: Incident, after: seq<Incident>, from: Instant, to: Instant, now: Instant)
    ensures i.endedAt.None? ==>
      ConfirmedDowntimeSecs(before + [i] + after, from, to, now) ==
      ConfirmedDowntimeSecs(before + [i.(endedAt := Some(now))] + after, from, to, now)
    ensures !i.countsAsDowntime ==>
      ConfirmedDowntimeSecs(before + [i] + after, from, to, now) == ConfirmedDowntimeSecs(before + after, from, to, now)
    ensures ConfirmedDowntimeSecs(before + [i] + after, from, to, now) ==
      ConfirmedDowntimeSecs(before, from, to, now) + ConfirmedDowntimeSecs([i], from, to, now) +
      ConfirmedDowntimeSecs(after, from, to, now)
  {
    var closed := i.(endedAt := Some(now));
    assert before + [i] + after == before + ([i] + after) && before + [closed] + after == before + ([closed] + after);
    SumAppends(before, [i] + after, from, to, now);
    SumAppends(before, [closed] + after, from, to, now);
    SumAppends(before, after, from, to, now);
    SumAppends([i], after, from, to, now);
    SumAppends([closed], after, from, to, now);
    assert [i][1..] == [] && [closed][1..] == [];
  }

  lemma {:induction false} SumAppends(a: seq<Incident>, b: seq<Incident>, from: Instant, to: Instant, now: Instant)
    ensures ConfirmedDowntimeSecs(a + b, from, to, now) ==
      ConfirmedDowntimeSecs(a, from, to, now) + ConfirmedDowntimeSecs(b, from, to, now)
  {
    if a == [] {
      assert a + b == b;
    } else {
      assert (a + b)[1..] == a[1..] + b;
      SumAppends(a[1..], b, from, to, now);
    }
  }

  // ----- Seconds are the floor of the overlap -----

  lemma DownSecsIsFloor(i: Incident, from: Instant, to: Instant, now: Instant)
    ensures DownSecs(i, from, to, now) == Overlap(i.startedAt, End(i, now), from, to) / SECOND
  {
  }

  /** Cutting a window in two cuts every overlap in two. */
  lemma OverlapSplits(start: Instant, end: Instant, a: Instant, b: Instant, c: Instant)
    requires a <= b <= c
    ensures Overlap(start, end, a, c) == Overlap(start, end, a, b) + Overlap(start, end, b, c)
  {
  }

  lemma FloorSplits(x: nat, y: nat)
    ensures x / SECOND + y / SECOND <= (x + y) / SECOND <= x / SECOND + y / SECOND + 1
    ensures x % SECOND == 0 || y % SECOND == 0 ==> (x + y) / SECOND == x / SECOND + y / SECOND
  {
  }

  function Counted(incidents: seq<Incident>): nat {
    if incidents == [] then 0 else (if incidents[0].countsAsDowntime then 1 else 0) + Counted(incidents[1..])
  }

  predicate Whole(t: Instant) { t % SECOND == 0 }

  ghost predicate AllWhole(incidents: seq<Incident>, now: Instant) {
    forall k :: 0 <= k < |incidents| ==> Whole(incidents[k].startedAt) && Whole(End(incidents[k], now))
  }

  lemma WholeOverlap(start: Instant, end: Instant, from: Instant, to: Instant)
    requires Whole(start) && Whole(end) && Whole(from) && Whole(to)
    ensures Overlap(start, end, from, to) % SECOND == 0
  {
  }

  /** Additivity: two adjoining windows never count more than the whole, at most one second per counted
      incident less, and exactly the whole when every time is a whole second. */
  lemma {:induction false} DowntimeAdditive(incidents: seq<Incident>, a: Instant, b: Instant, c: Instant, now: Instant)
    requires a <= b <= c
    ensures
      var parts := ConfirmedDowntimeSecs(incidents, a, b, now) + ConfirmedDowntimeSecs(incidents, b, c, now);
      var all := ConfirmedDowntimeSecs(incidents, a, c, now);
      parts <= all <= parts + Counted(incidents) &&
      (AllWhole(incidents, now) && Whole(a) && Whole(b) && Whole(c) ==> parts == all)
  {
    if incidents != [] {
      DowntimeAdditive(incidents[1..], a, b, c, now);
      var i := incidents[0];
      DownSecsIsFloor(i, a, b, now);
      DownSecsIsFloor(i, b, c, now);
      DownSecsIsFloor(i, a, c, now);
      OverlapSplits(i.startedAt, End(i, now), a, b, c);
      FloorSplits(Overlap(i.startedAt, End(i, now), a, b), Overlap(i.startedAt, End(i, now), b, c));
      if AllWhole(incidents, now) && Whole(a) && Whole(b) {
        assert Whole(incidents[0].startedAt) && Whole(End(incidents[0], now));
        WholeOverlap(i.startedAt, End(i, now), a, b);
        assert AllWhole(incidents[1..], now);
      }
    }
  }

  // ----- Order and exclusion do not matter -----

  function Without(incidents: seq<Incident>, k: nat): seq<Incident>
    requires k < |incidents|
  {
    incidents[..k] + incidents[k + 1..]
  }

  /** One incident can be taken out of the sum wherever it stands. */
  lemma {:induction false} TakeOut(incidents: seq<Incident>, k: nat, from: Instant, to: Instant, now: Instant)
    requires k < |incidents|
    ensures ConfirmedDowntimeSecs(incidents, from, to, now) ==
      (if incidents[k].countsAsDowntime then DownSecs(incidents[k], from, to, now) else 0)
      + ConfirmedDowntimeSecs(Without(incidents, k), from, to, now)
  {
    if k == 0 {
      assert Without(incidents, 0) == incidents[1..];
    } else {
      TakeOut(incidents[1..], k - 1, from, to, now);
      assert Without(incidents, k)[1..] == Without(incidents[1..], k - 1);
    }
  }

  /** The sum depends on which incidents there are, not on their order. */
  lemma {:induction false} DowntimeUnordered(a: seq<Incident>, b: seq<Incident>, from: Instant, to: Instant,
      now: Instant)
    requires multiset(a) == multiset(b)
    ensures ConfirmedDowntimeSecs(a, from, to, now) == ConfirmedDowntimeSecs(b, from, to, now)
  {
    if a == [] {
      assert |multiset(b)| == |multiset(a)| == 0;
    } else {
      assert a[0] in multiset(b);
      var k :| 0 <= k < |b| && b[k] == a[0];
      TakeOut(b, k, from, to, now);
      SameRest(a, b, k);
      DowntimeUnordered(a[1..], Without(b, k), from, to, now);
    }
  }

  lemma {:induction false} SameRest(a: seq<Incident>, b: seq<Incident>, k: nat)
    requires a != [] && k < |b| && b[k] == a[0] && multiset(a) == multiset(b)
    ensures multiset(a[1..]) == multiset(Without(b, k))
  {
    assert a == [a[0]] + a[1..];
    assert b == b[..k] + [b[k]] + b[k + 1..];
    assert multiset(a[1..]) == multiset(a) - multiset{a[0]};
    assert multiset(Without(b, k)) == multiset(b) - multiset{a[0]};
  }

  function Included(incidents: seq<Incident>): (r: seq<Incident>)
    ensures forall k :: 0 <= k < |r| ==> r[k].countsAsDowntime && r[k] in incidents
  {
    if incidents == [] then []
    else (if incidents[0].countsAsDowntime then [incidents[0]] else []) + Included(incidents[1..])
  }

  lemma {:induction false} ExcludedIgnored(incidents: seq<Incident>, from: Instant, to: Instant, now: Instant)
    ensures ConfirmedDowntimeSecs(incidents, from, to, now) == ConfirmedDowntimeSecs(Included(incidents), from, to, now)
  {
    if incidents != [] {
      ExcludedIgnored(incidents[1..], from, to, now);
      var r, rest := Included(incidents), Included(incidents[1..]);
      if incidents[0].countsAsDowntime {
        assert r == [incidents[0]] + rest && r[1..] == rest;
      } else {
        assert r == [] + rest == rest;
      }
    }
  }

  // ----- Disjoint incidents fit in the window -----

  function OverlapSum(incidents: seq<Incident>, from: Instant, to: Instant, now: Instant): nat {
    if incidents == [] then 0
    else
      (if incidents[0].countsAsDowntime then Overlap(incidents[0].startedAt, End(incidents[0], now), from, to) else 0)
      + OverlapSum(incidents[1..], from, to, now)
  }

  /** Counted incidents do not overlap, as far as the window sees them. */
  ghost predicate Disjoint(incidents: seq<Incident>, from: Instant, to: Instant, now: Instant) {
    forall j, k :: 0 <= j < k < |incidents| && incidents[j].countsAsDowntime && incidents[k].countsAsDowntime ==>
      var lo, hi := Max(from, Max(incidents[j].startedAt, incidents[k].startedAt)),
                    Min(to, Min(End(incidents[j], now), End(incidents[k], now)));
      hi <= lo
  }

  lemma {:induction false} SumSplits(incidents: seq<Incident>, a: Instant, b: Instant, c: Instant, now: Instant)
    requires a <= b <= c
    ensures OverlapSum(incidents, a, c, now) == OverlapSum(incidents, a, b, now) + OverlapSum(incidents, b, c, now)
  {
    if incidents != [] {
      SumSplits(incidents[1..], a, b, c, now);
      OverlapSplits(incidents[0].startedAt, End(incidents[0], now), a, b, c);
    }
  }

  lemma {:induction false} NoneInside(incidents: seq<Incident>, from: Instant, to: Instant, now: Instant)
    requires forall k :: 0 <= k < |incidents| && incidents[k].countsAsDowntime ==>
      Overlap(incidents[k].startedAt, End(incidents[k], now), from, to) == 0
    ensures OverlapSum(incidents, from, to, now) == 0
  {
    if incidents != [] {
      NoneInside(incidents[1..], from, to, now);
    }
  }

  /** Disjoint stretches of a window add up to no more than the window: cut it at the first incident. */
  lemma {:induction false} DisjointFit(incidents: seq<Incident>, from: Instant, to: Instant, now: Instant)
    requires from <= to && Disjoint(incidents, from, to, now)
    ensures OverlapSum(incidents, from, to, now) <= to - from
    decreases |incidents|
  {
    if incidents != [] {
      var i, rest := incidents[0], incidents[1..];
      var own := Overlap(i.startedAt, End(i, now), from, to);
      forall j, k | 0 <= j < k < |rest| && rest[j].countsAsDowntime && rest[k].countsAsDowntime
        ensures Min(to, Min(End(rest[j], now), End(rest[k], now))) <= Max(from, Max(rest[j].startedAt, rest[k].startedAt))
      {
        assert rest[j] == incidents[j + 1] && rest[k] == incidents[k + 1];
      }
      if !i.countsAsDowntime || own == 0 {
        DisjointFit(rest, from, to, now);
      } else {
        var s, e := Max(i.startedAt, from), Min(End(i, now), to);
        SumSplits(rest, from, s, to, now);
        SumSplits(rest, s, e, to, now);
        forall k | 0 <= k < |rest| && rest[k].countsAsDowntime
          ensures Overlap(rest[k].startedAt, End(rest[k], now), s, e) == 0
        {
          assert rest[k] == incidents[k + 1];
        }
        NoneInside(rest, s, e, now);
        DisjointFit(rest, from, s, now);
        DisjointFit(rest, e, to, now);
      }
    }
  }

  lemma {:induction false} SecondsWithinSum(incidents: seq<Incident>, from: Instant, to: Instant, now: Instant)
    ensures ConfirmedDowntimeSecs(incidents, from, to, now) <= OverlapSum(incidents, from, to, now) / SECOND
  {
    if incidents != [] {
      SecondsWithinSum(incidents[1..], from, to, now);
      var i := incidents[0];
      DownSecsIsFloor(i, from, to, now);
      FloorSplits(Overlap(i.startedAt, End(i, now), from, to), OverlapSum(incidents[1..], from, to, now));
    }
  }

  lemma {:induction false} DowntimeNonNegative(incidents: seq<Incident>, from: Instant, to: Instant, now: Instant)
    ensures ConfirmedDowntimeSecs(incidents, from, to, now) >= 0
  {
    if incidents != [] {
      DowntimeNonNegative(incidents[1..], from, to, now);
    }
  }

  /** `uptime_pct_from_downtime`, over the reals. */
  function UptimePct(downtimeSecs: int, windowSecs: int): real {
    if windowSecs <= 0 then 100.0
    else
      var up := Max(windowSecs - downtimeSecs, 0) as real;
      var pct := up / (windowSecs as real) * 100.0;
      if pct < 0.0 then 0.0 else if pct > 100.0 then 100.0 else pct
  }

  /** For incidents that do not overlap in the window, downtime fits the window, and the uptime is the
      plain ratio: neither the floor at zero nor the clamp ever acts. */
  lemma {:induction false} UptimeNeedsNoClamp(incidents: seq<Incident>, from: Instant, to: Instant, now: Instant)
    requires from <= to && Disjoint(incidents, from, to, now)
    ensures
      var down, window := ConfirmedDowntimeSecs(incidents, from, to, now), Seconds(to - from);
      0 <= down <= window &&
      (window > 0 ==> UptimePct(down, window) == (window - down) as real / window as real * 100.0)
  {
    DisjointFit(incidents, from, to, now);
    SecondsWithinSum(incidents, from, to, now);
    DowntimeNonNegative(incidents, from, to, now);
    var down, window := ConfirmedDowntimeSecs(incidents, from, to, now), Seconds(to - from);
    var sum := OverlapSum(incidents, from, to, now);
    FloorMonotone(sum, to - from);
    if window > 0 {
      RatioInRange((window - down) as real, window as real);
    }
  }

  lemma FloorMonotone(x: nat, y: nat)
    requires x <= y
    ensures x / SECOND <= y / SECOND
  {
  }

  lemma {:induction false} RatioInRange(up: real, window: real)
    requires 0.0 <= up <= window && window > 0.0
    ensures 0.0 <= up / window * 100.0 <= 100.0
  {
  }

  /** At the ends of the scale, and without a window. */
  lemma {:induction false} UptimeEnds(downtimeSecs: int, windowSecs: int)
    ensures windowSecs <= 0 || downtimeSecs <= 0 ==> UptimePct(downtimeSecs, windowSecs) == 100.0
    ensures 0 < windowSecs <= downtimeSecs ==> UptimePct(downtimeSecs, windowSecs) == 0.0
    ensures 0 <= downtimeSecs <= windowSecs && windowSecs > 0 ==>
      UptimePct(downtimeSecs, windowSecs) * windowSecs as real == (windowSecs - downtimeSecs) as real * 100.0
  {
    if windowSecs > 0 {
      var w := windowSecs as real;
      if downtimeSecs <= 0 {
        RatioAtLeastOne((windowSecs - downtimeSecs) as real, w);
      } else if downtimeSecs <= windowSecs {
        RatioInRange((windowSecs - downtimeSecs) as real, w);
        RatioBack((windowSecs - downtimeSecs) as real, w);
      }
    }
  }

  lemma {:induction false} RatioAtLeastOne(up: real, window: real)
    requires up >= window > 0.0
    ensures up / window * 100.0 >= 100.0
  {
    assert up / window >= 1.0;
  }

  lemma {:induction false} RatioBack(up: real, window: real)
    requires window > 0.0
    ensures up / window * 100.0 * window == up * 100.0
  {
    assert up / window * window == up;
  }
}
