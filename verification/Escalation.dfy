/** The escalation ladder and its repeats. */
module Escalation {
  import opened Common

  datatype Rung = Rung(level: int, delaySecs: int)

  datatype Decision = Page(level: int, round: int, delaySecs: int) | Exhausted

  /** The first rung above `level`. */
  function Above(steps: seq<Rung>, level: int): (r: Option<Rung>)
    ensures r.Some? ==> r.value in steps && r.value.level > level
    ensures r.None? ==> forall k :: 0 <= k < |steps| ==> steps[k].level <= level
  {
    if steps == [] then None
    else if steps[0].level > level then Some(steps[0])
    else Above(steps[1..], level)
  }

  function NextStep(steps: seq<Rung>, repeatCount: int, level: int, round: int): Decision {
    if steps == [] then Exhausted
    else
      match Above(steps, level)
      case Some(next) => Page(next.level, round, next.delaySecs)
      case None =>
        if round < repeatCount then Page(steps[0].level, round + 1, steps[0].delaySecs) else Exhausted
  }

  /** The engine's pages from a position on: each page becomes the next position, and the rungs above
      it together with the rounds left always shrink, so there is a last one. */
  function Pages(steps: seq<Rung>, repeatCount: int, level: int, round: int): seq<Decision>
    decreases Max(repeatCount - round, 0), RungsAbove(steps, level)
  {
    var d := NextStep(steps, repeatCount, level, round);
    if d.Exhausted? then []
    else
      PageShrinks(steps, repeatCount, level, round);
      [d] + Pages(steps, repeatCount, d.level, d.round)
  }

  function RungsAbove(steps: seq<Rung>, level: int): nat {
    if steps == [] then 0 else (if steps[0].level > level then 1 else 0) + RungsAbove(steps[1..], level)
  }

  lemma {:induction false} FewerAbove(steps: seq<Rung>, level: int, higher: int)
    requires level <= higher
    ensures RungsAbove(steps, higher) <= RungsAbove(steps, level)
    ensures level < higher && (exists r :: r in steps && r.level == higher) ==>
      RungsAbove(steps, higher) < RungsAbove(steps, level)
  {
    if steps != [] {
      FewerAbove(steps[1..], level, higher);
      assert forall r :: r in steps ==> r == steps[0] || r in steps[1..];
    }
  }

  /** Every page uses up a round or leaves fewer rungs above it, whatever the list and the position. */
  lemma {:induction false} PageShrinks(steps: seq<Rung>, repeatCount: int, level: int, round: int)
    requires NextStep(steps, repeatCount, level, round).Page?
    ensures
      var d := NextStep(steps, repeatCount, level, round);
      var left, left' := Max(repeatCount - round, 0), Max(repeatCount - d.round, 0);
      left' < left || (left' == left && RungsAbove(steps, d.level) < RungsAbove(steps, level))
  {
    var next := Above(steps, level);
    if next.Some? {
      FewerAbove(steps, level, next.value.level);
    }
  }

  predicate Ascending(steps: seq<Rung>) {
    forall j, k :: 0 <= j < k < |steps| ==> steps[j].level < steps[k].level
  }

  /** In an ascending list the rung above the level of rung `k - 1` is rung `k`. */
  lemma {:induction false} AboveIs(steps: seq<Rung>, k: nat, level: int)
    requires Ascending(steps) && k <= |steps|
    requires k < |steps| ==> level < steps[k].level
    requires forall j :: 0 <= j < k ==> steps[j].level <= level
    ensures Above(steps, level) == if k < |steps| then Some(steps[k]) else None
  {
    if k > 0 {
      AboveIs(steps[1..], k - 1, level);
    }
  }

  function RungPage(steps: seq<Rung>, round: int, k: nat): Decision
    requires k < |steps|
  {
    Page(steps[k].level, round, steps[k].delaySecs)
  }

  /** Pages of one round from rung `k` on. */
  function RoundFrom(steps: seq<Rung>, round: int, k: nat): seq<Decision>
    requires k <= |steps|
    decreases |steps| - k
  {
    if k == |steps| then [] else [RungPage(steps, round, k)] + RoundFrom(steps, round, k + 1)
  }

  /** `rounds` whole walks of the ladder, numbered from `round`. */
  function Walks(steps: seq<Rung>, round: int, rounds: nat): seq<Decision>
    decreases rounds
  {
    if rounds == 0 then [] else RoundFrom(steps, round, 0) + Walks(steps, round + 1, rounds - 1)
  }

  /** From just below rung `k` of a round: the rest of the round, then every round left. */
  lemma {:induction false} PagesFrom(steps: seq<Rung>, repeatCount: int, round: int, k: nat, level: int)
    requires Ascending(steps) && steps != [] && k <= |steps|
    requires forall j :: 0 <= j < k ==> steps[j].level <= level
    requires k < |steps| ==> level < steps[k].level
    ensures Pages(steps, repeatCount, level, round) ==
      RoundFrom(steps, round, k) + Walks(steps, round + 1, Max(repeatCount - round, 0))
    decreases Max(repeatCount - round, 0), |steps| - k
  {
    AboveIs(steps, k, level);
    var d := NextStep(steps, repeatCount, level, round);
    if k < |steps| {
      PagesFrom(steps, repeatCount, round, k + 1, d.level);
      assert [d] + (RoundFrom(steps, round, k + 1) + Walks(steps, round + 1, Max(repeatCount - round, 0)))
          == ([d] + RoundFrom(steps, round, k + 1)) + Walks(steps, round + 1, Max(repeatCount - round, 0));
    } else if round < repeatCount {
      PagesFrom(steps, repeatCount, round + 1, 1, d.level);
      var after := Walks(steps, round + 2, repeatCount - round - 1);
      assert RoundFrom(steps, round + 1, 0) == [d] + RoundFrom(steps, round + 1, 1);
      assert [d] + (RoundFrom(steps, round + 1, 1) + after) == RoundFrom(steps, round + 1, 0) + after;
      assert [] + Walks(steps, round + 1, repeatCount - round) == Walks(steps, round + 1, repeatCount - round);
    }
  }

  /** A fresh incident on a policy with ascending positive levels is paged through the whole ladder
      `repeat_count + 1` times, in order, and then never again; a negative count means no repeat. */
  lemma {:induction false} LadderWalkedExactly(steps: seq<Rung>, repeatCount: int)
    requires Ascending(steps) && steps != [] && steps[0].level >= 1
    ensures Pages(steps, repeatCount, 0, 0) == Walks(steps, 0, Max(repeatCount, 0) + 1)
  {
    PagesFrom(steps, repeatCount, 0, 0, 0);
  }

  lemma {:induction false} WalksLength(steps: seq<Rung>, round: int, rounds: nat)
    ensures |Walks(steps, round, rounds)| == |steps| * rounds
    decreases rounds
  {
    if rounds > 0 {
      RoundIs(steps, round, 0, 0);
      WalksLength(steps, round + 1, rounds - 1);
      assert |steps| * rounds == |steps| + |steps| * (rounds - 1);
    }
  }

  lemma {:induction false} PageOfWalks(steps: seq<Rung>, round: int, rounds: nat, r: nat, k: nat)
    requires r < rounds && k < |steps|
    ensures 0 <= r * |steps| + k < |Walks(steps, round, rounds)|
    ensures Walks(steps, round, rounds)[r * |steps| + k] == RungPage(steps, round + r, k)
    decreases r
  {
    var first, rest := RoundFrom(steps, round, 0), Walks(steps, round + 1, rounds - 1);
    RoundIs(steps, round, 0, k);
    assert Walks(steps, round, rounds) == first + rest;
    if r == 0 {
      assert r * |steps| + k == k;
    } else {
      PageOfWalks(steps, round + 1, rounds - 1, r - 1, k);
      var at := (r - 1) * |steps| + k;
      assert r * |steps| + k == |steps| + at;
      assert (first + rest)[|first| + at] == rest[at];
    }
  }

  /** The whole run in closed form: exactly `(repeat_count + 1) * rungs` pages, and the page at place
      `r * rungs + k` is rung `k` in round `r`. */
  lemma {:induction false} PagesClosedForm(steps: seq<Rung>, repeatCount: int, r: nat, k: nat)
    requires Ascending(steps) && steps != [] && steps[0].level >= 1
    ensures |Pages(steps, repeatCount, 0, 0)| == |steps| * (Max(repeatCount, 0) + 1)
    ensures r <= Max(repeatCount, 0) && k < |steps| ==>
      0 <= r * |steps| + k < |Pages(steps, repeatCount, 0, 0)| &&
      Pages(steps, repeatCount, 0, 0)[r * |steps| + k] == RungPage(steps, r, k)
  {
    LadderWalkedExactly(steps, repeatCount);
    WalksLength(steps, 0, Max(repeatCount, 0) + 1);
    if r <= Max(repeatCount, 0) && k < |steps| {
      PageOfWalks(steps, 0, Max(repeatCount, 0) + 1, r, k);
    }
  }

  /** Field by field: that page names the level, the round and the delay of its rung. */
  lemma {:induction false} PageFields(steps: seq<Rung>, repeatCount: int, r: nat, k: nat)
    requires Ascending(steps) && steps != [] && steps[0].level >= 1
    requires r <= Max(repeatCount, 0) && k < |steps|
    ensures 0 <= r * |steps| + k < |Pages(steps, repeatCount, 0, 0)|
    ensures
      var page := Pages(steps, repeatCount, 0, 0)[r * |steps| + k];
      page.Page? && page.level == steps[k].level && page.round == r && page.delaySecs == steps[k].delaySecs
  {
    PagesClosedForm(steps, repeatCount, r, k);
  }

  ghost predicate IsFirstAbove(steps: seq<Rung>, level: int, k: nat)
    requires k < |steps|
  {
    steps[k].level > level && forall j :: 0 <= j < k ==> steps[j].level <= level
  }

  /** One step, for any list: the first rung above the level in the same round, else the first rung in the next
      round while rounds are left, else nothing. */
  lemma {:induction false} StepTable(steps: seq<Rung>, repeatCount: int, level: int, round: int)
    ensures
      var d := NextStep(steps, repeatCount, level, round);
      (d.Exhausted? <==>
         steps == [] || (round >= repeatCount && forall k :: 0 <= k < |steps| ==> steps[k].level <= level)) &&
      (forall k :: 0 <= k < |steps| && IsFirstAbove(steps, level, k) ==>
         d.Page? && d.level == steps[k].level && d.round == round && d.delaySecs == steps[k].delaySecs) &&
      (d.Page? && (forall k :: 0 <= k < |steps| ==> steps[k].level <= level) ==>
         d.level == steps[0].level && d.round == round + 1 && d.delaySecs == steps[0].delaySecs)
  {
    forall k | 0 <= k < |steps| && IsFirstAbove(steps, level, k)
      ensures Above(steps, level) == Some(steps[k])
    {
      FirstAbove(steps, level, k);
    }
  }

  lemma {:induction false} FirstAbove(steps: seq<Rung>, level: int, k: nat)
    requires k < |steps| && IsFirstAbove(steps, level, k)
    ensures Above(steps, level) == Some(steps[k])
  {
    if k > 0 {
      FirstAbove(steps[1..], level, k - 1);
    }
  }

  lemma {:induction false} RoundIs(steps: seq<Rung>, round: int, k: nat, n: nat)
    requires k <= |steps|
    ensures |RoundFrom(steps, round, k)| == |steps| - k
    ensures n < |steps| - k ==> RoundFrom(steps, round, k)[n] == RungPage(steps, round, k + n)
    decreases |steps| - k
  {
    if k < |steps| {
      RoundIs(steps, round, k + 1, if n > 0 then n - 1 else 0);
    }
  }

  /** Once exhausted, exhausted for good: the position does not move, and nor does the answer. */
  lemma {:induction false} LastPageIsLast(steps: seq<Rung>, repeatCount: int, level: int, round: int)
    ensures
      var pages := Pages(steps, repeatCount, level, round);
      var at := if pages == [] then Page(level, round, 0) else pages[|pages| - 1];
      at.Page? && NextStep(steps, repeatCount, at.level, at.round) == Exhausted
    decreases Max(repeatCount - round, 0), RungsAbove(steps, level)
  {
    var d := NextStep(steps, repeatCount, level, round);
    if d.Page? {
      PageShrinks(steps, repeatCount, level, round);
      LastPageIsLast(steps, repeatCount, d.level, d.round);
      var rest := Pages(steps, repeatCount, d.level, d.round);
      assert Pages(steps, repeatCount, level, round) == [d] + rest;
    }
  }
}
