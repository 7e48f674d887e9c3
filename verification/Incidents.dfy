/** Check observations coalesced into incidents. */
module Incidents {
  import opened Common

  type Instant = int            // nanoseconds

  const SECOND: nat := 1_000_000_000

  datatype CheckStatus = Up | Degraded | Down | Error

  datatype Observation = Observation(at: Instant, status: CheckStatus, error: Option<string>)

  datatype Incident = Incident(
    target: nat,
    startedAt: Instant,
    endedAt: Option<Instant>,
    status: CheckStatus,
    durationSecs: Option<nat>,
    checkCount: nat,
    errorSample: Option<string>,
    countsAsDowntime: bool)

  predicate Bad(o: Observation) { o.status == Down || o.status == Error }

  /** Whole seconds, toward zero. */
  function Seconds(d: int): int {
    if d >= 0 then d / SECOND else -((-d) / SECOND)
  }

  function NewIncident(target: nat, o: Observation): Incident {
    Incident(target, o.at, None, o.status, None, 1, o.error, true)
  }

  function Extended(inc: Incident, o: Observation): Incident {
    inc.(checkCount := inc.checkCount + 1,
         errorSample := if inc.errorSample.None? then o.error else inc.errorSample,
         endedAt := Some(o.at),
         durationSecs := Some(Max(Seconds(o.at - inc.startedAt), 0)),
         status := o.status)
  }

  // ----- What one run of bad checks is worth -----

  function FirstError(obs: seq<Observation>): Option<string> {
    if obs == [] then None
    else if obs[0].error.Some? then obs[0].error
    else FirstError(obs[1..])
  }

  /** The incident of the bad observations `obs[i..j]`, cut short by a good one if `closed`. */
  function RunIncident(target: nat, obs: seq<Observation>, i: nat, j: nat, closed: bool): Incident
    requires i < j <= |obs|
  {
    var ended := closed && j - i >= 2;
    Incident(target, obs[i].at,
             if ended then Some(obs[j - 1].at) else None,
             obs[j - 1].status,
             if ended then Some(Max(Seconds(obs[j - 1].at - obs[i].at), 0)) else None,
             j - i, FirstError(obs[i..j]), true)
  }

  // ----- The maximal runs -----

  /** The end of the stretch of bad observations running at `i`. */
  function BadUntil(obs: seq<Observation>, i: nat): (j: nat)
    requires i <= |obs|
    ensures i <= j <= |obs| && (j == |obs| || !Bad(obs[j]))
    ensures forall k :: i <= k < j ==> Bad(obs[k])
    decreases |obs| - i
  {
    if i < |obs| && Bad(obs[i]) then BadUntil(obs, i + 1) else i
  }

  /** The incidents from position `i` on, where no run is under way. */
  function IncidentsFrom(target: nat, obs: seq<Observation>, i: nat): seq<Incident>
    requires i <= |obs|
    decreases |obs| - i
  {
    if i == |obs| then []
    else if !Bad(obs[i]) then IncidentsFrom(target, obs, i + 1)
    else
      var j := BadUntil(obs, i + 1);
      [RunIncident(target, obs, i, j, j < |obs|)] + IncidentsFrom(target, obs, j)
  }

  lemma {:induction false} FirstErrorSnoc(obs: seq<Observation>, o: Observation)
    ensures FirstError(obs + [o]) == if FirstError(obs).Some? then FirstError(obs) else o.error
  {
    if obs != [] {
      assert (obs + [o])[1..] == obs[1..] + [o];
      FirstErrorSnoc(obs[1..], o);
    }
  }

  /** The incident under construction after the bad observations `obs[i..j]`. */
  function Building(target: nat, obs: seq<Observation>, i: nat, j: nat): Incident
    requires i < j <= |obs|
  {
    RunIncident(target, obs, i, j, true)
  }

  lemma {:induction false} ExtendBuilding(target: nat, obs: seq<Observation>, i: nat, j: nat)
    requires i < j < |obs|
    ensures Extended(Building(target, obs, i, j), obs[j]) == Building(target, obs, i, j + 1)
  {
    FirstErrorSnoc(obs[i..j], obs[j]);
    assert obs[i..j] + [obs[j]] == obs[i..j + 1];
  }

  /** After `k` observations: `out` holds the finished incidents, `current` the one since `start`. */
  ghost predicate Coalesced(target: nat, obs: seq<Observation>, k: nat, out: seq<Incident>,
      current: Option<Incident>, start: nat) {
    start <= k <= |obs| &&
    out + IncidentsFrom(target, obs, start) == IncidentsFrom(target, obs, 0) &&
    (current.None? ==> start == k) &&
    (current.Some? ==>
       start < k && Bad(obs[start]) && current.value == Building(target, obs, start, k) &&
       BadUntil(obs, start + 1) == BadUntil(obs, k))
  }

  lemma {:induction false} CloseRun(target: nat, obs: seq<Observation>, k: nat, out: seq<Incident>,
      current: Option<Incident>, start: nat)
    requires Coalesced(target, obs, k, out, current, start) && k < |obs| && !Bad(obs[k]) && current.Some?
    ensures Coalesced(target, obs, k + 1, out + [current.value], None, k + 1)
  {
    assert IncidentsFrom(target, obs, start) == [current.value] + IncidentsFrom(target, obs, k);
    assert out + ([current.value] + IncidentsFrom(target, obs, k)) == (out + [current.value]) + IncidentsFrom(target, obs, k);
  }

  /** The loop of the source. */
  method CoalesceIncidents(target: nat, obs: seq<Observation>) returns (out: seq<Incident>)
    ensures out == IncidentsFrom(target, obs, 0)
  {
    out := [];
    var current: Option<Incident> := None;
    ghost var start := 0;
    for k := 0 to |obs|
      invariant Coalesced(target, obs, k, out, current, start)
    {
      var o := obs[k];
      if Bad(o) {
        if current.Some? {
          ExtendBuilding(target, obs, start, k);
          current := Some(Extended(current.value, o));
        } else {
          start := k;
          current := Some(NewIncident(target, o));
          FirstErrorSnoc([], o);
          assert obs[k..k + 1] == [] + [o];
        }
      } else {
        if current.Some? {
          CloseRun(target, obs, k, out, current, start);
          out := out + [current.value];
        }
        current := None;
        start := k + 1;
      }
    }
    if current.Some? {
      assert IncidentsFrom(target, obs, start) ==
        [RunIncident(target, obs, start, |obs|, false)] + IncidentsFrom(target, obs, |obs|);
      out := out + [current.value.(endedAt := None, durationSecs := None)];
    }
  }

  // ----- What the result is -----

  /** `obs[i..j]` is a maximal run of bad observations. */
  ghost predicate MaximalRun(obs: seq<Observation>, i: nat, j: nat) {
    i < j <= |obs| && (forall k :: i <= k < j ==> Bad(obs[k])) &&
    (i == 0 || !Bad(obs[i - 1])) && (j == |obs| || !Bad(obs[j]))
  }

  function RunsFrom(obs: seq<Observation>, i: nat): seq<(nat, nat)>
    requires i <= |obs|
    decreases |obs| - i
  {
    if i == |obs| then []
    else if !Bad(obs[i]) then RunsFrom(obs, i + 1)
    else
      var j := BadUntil(obs, i + 1);
      [(i, j)] + RunsFrom(obs, j)
  }

  lemma OnlyRunThere(obs: seq<Observation>, i: nat, j: nat, a: nat, b: nat)
    requires MaximalRun(obs, i, j) && MaximalRun(obs, a, b) && i <= a < j
    ensures a == i && b == j
  {
  }

  /** The runs found are exactly the maximal runs. */
  lemma {:induction false} RunsAreMaximal(obs: seq<Observation>, i: nat, r: (nat, nat))
    requires i <= |obs| && (i == 0 || !Bad(obs[i - 1]) || i == |obs| || !Bad(obs[i]))
    ensures r in RunsFrom(obs, i) <==> i <= r.0 && MaximalRun(obs, r.0, r.1)
    decreases |obs| - i
  {
    if i < |obs| {
      if !Bad(obs[i]) {
        RunsAreMaximal(obs, i + 1, r);
        assert r.0 == i ==> !MaximalRun(obs, r.0, r.1);
      } else {
        var j := BadUntil(obs, i + 1);
        assert MaximalRun(obs, i, j);
        RunsAreMaximal(obs, j, r);
        if i <= r.0 < j && MaximalRun(obs, r.0, r.1) {
          OnlyRunThere(obs, i, j, r.0, r.1);
        }
      }
    }
  }

  /** In order, and apart from each other. */
  ghost predicate InOrder(runs: seq<(nat, nat)>) {
    forall a, b :: 0 <= a < b < |runs| ==> runs[a].1 < runs[b].0
  }

  lemma {:induction false} RunsInOrder(obs: seq<Observation>, i: nat)
    requires i <= |obs| && (i == 0 || !Bad(obs[i - 1]) || i == |obs| || !Bad(obs[i]))
    ensures InOrder(RunsFrom(obs, i))
    decreases |obs| - i
  {
    if i < |obs| {
      if !Bad(obs[i]) {
        RunsInOrder(obs, i + 1);
      } else {
        var j := BadUntil(obs, i + 1);
        var rest := RunsFrom(obs, j);
        RunsInOrder(obs, j);
        forall b | 0 <= b < |rest| ensures j < rest[b].0 {
          assert rest[b] in rest;
          RunsAreMaximal(obs, j, rest[b]);
        }
      }
    }
  }

  lemma {:induction false} IncidentOfRun(target: nat, obs: seq<Observation>, i: nat, k: nat)
    requires i <= |obs|
    ensures |RunsFrom(obs, i)| == |IncidentsFrom(target, obs, i)|
    ensures k < |RunsFrom(obs, i)| ==>
      var r := RunsFrom(obs, i)[k];
      r.0 < r.1 <= |obs| &&
      IncidentsFrom(target, obs, i)[k] == RunIncident(target, obs, r.0, r.1, r.1 < |obs|)
    decreases |obs| - i
  {
    if i < |obs| {
      if !Bad(obs[i]) {
        IncidentOfRun(target, obs, i + 1, k);
      } else {
        IncidentOfRun(target, obs, BadUntil(obs, i + 1), if k == 0 then 0 else k - 1);
      }
    }
  }

  /** One incident per maximal run of bad checks, in order: the runs listed are exactly the maximal ones,
      and the k-th incident has the k-th run's first timestamp, length, last status and first error. */
  lemma {:induction false} OneIncidentPerRun(target: nat, obs: seq<Observation>)
    ensures
      var runs, incidents := RunsFrom(obs, 0), IncidentsFrom(target, obs, 0);
      InOrder(runs) && |incidents| == |runs| &&
      (forall r :: r in runs <==> MaximalRun(obs, r.0, r.1)) &&
      (forall k :: 0 <= k < |runs| ==>
         MaximalRun(obs, runs[k].0, runs[k].1) &&
         incidents[k] == RunIncident(target, obs, runs[k].0, runs[k].1, runs[k].1 < |obs|))
  {
    RunsInOrder(obs, 0);
    IncidentOfRun(target, obs, 0, 0);
    forall r ensures r in RunsFrom(obs, 0) <==> MaximalRun(obs, r.0, r.1) {
      RunsAreMaximal(obs, 0, r);
    }
    forall k | 0 <= k < |RunsFrom(obs, 0)| ensures
      var r := RunsFrom(obs, 0)[k];
      MaximalRun(obs, r.0, r.1) &&
      IncidentsFrom(target, obs, 0)[k] == RunIncident(target, obs, r.0, r.1, r.1 < |obs|)
    {
      IncidentOfRun(target, obs, 0, k);
      assert RunsFrom(obs, 0)[k] in RunsFrom(obs, 0);
    }
  }

  function BadCount(obs: seq<Observation>): nat {
    if obs == [] then 0 else (if Bad(obs[0]) then 1 else 0) + BadCount(obs[1..])
  }

  function CheckSum(incidents: seq<Incident>): nat {
    if incidents == [] then 0 else incidents[0].checkCount + CheckSum(incidents[1..])
  }

  lemma {:induction false} AllBad(obs: seq<Observation>, rest: seq<Observation>)
    requires forall k :: 0 <= k < |obs| ==> Bad(obs[k])
    ensures BadCount(obs + rest) == |obs| + BadCount(rest)
  {
    if obs == [] {
      assert obs + rest == rest;
    } else {
      assert (obs + rest)[1..] == obs[1..] + rest;
      AllBad(obs[1..], rest);
    }
  }

  /** Every bad check is counted in exactly one incident. */
  lemma {:induction false} ChecksConserved(target: nat, obs: seq<Observation>, i: nat)
    requires i <= |obs|
    ensures CheckSum(IncidentsFrom(target, obs, i)) == BadCount(obs[i..])
    decreases |obs| - i
  {
    if i < |obs| {
      if !Bad(obs[i]) {
        ChecksConserved(target, obs, i + 1);
        assert obs[i..][1..] == obs[i + 1..];
      } else {
        var j := BadUntil(obs, i + 1);
        ChecksConserved(target, obs, j);
        assert obs[i..] == obs[i..j] + obs[j..];
        AllBad(obs[i..j], obs[j..]);
        var first, rest := RunIncident(target, obs, i, j, j < |obs|), IncidentsFrom(target, obs, j);
        assert ([first] + rest)[1..] == rest;
      }
    }
  }

  /** An incident has an end if and only if its run is over and has at least two checks: a closed run of
      one check looks ongoing. */
  lemma {:induction false} EndedIffClosedAndLong(target: nat, obs: seq<Observation>, k: nat) returns (i: nat, j: nat)
    requires k < |IncidentsFrom(target, obs, 0)|
    ensures MaximalRun(obs, i, j)
    ensures
      var inc := IncidentsFrom(target, obs, 0)[k];
      inc.startedAt == obs[i].at && inc.checkCount == j - i &&
      (inc.endedAt.Some? <==> j < |obs| && inc.checkCount >= 2) &&
      (inc.endedAt.Some? ==> inc.endedAt.value == obs[j - 1].at) &&
      (inc.durationSecs.Some? <==> inc.endedAt.Some?)
  {
    OneIncidentPerRun(target, obs);
    i, j := RunsFrom(obs, 0)[k].0, RunsFrom(obs, 0)[k].1;
  }

  /** One failed check and then a good one: over, and without an end. */
  lemma {:induction false} LoneFailureLooksOngoing(target: nat, at: Instant, later: Instant)
    ensures
      var incidents := IncidentsFrom(target, [Observation(at, Down, None), Observation(later, Up, None)], 0);
      |incidents| == 1 && incidents[0].startedAt == at && incidents[0].endedAt.None?
  {
    var obs := [Observation(at, Down, None), Observation(later, Up, None)];
    assert BadUntil(obs, 1) == 1 && IncidentsFrom(target, obs, 2) == [];
    assert IncidentsFrom(target, obs, 1) == [];
  }

  // ----- In terms of the checks -----

  /** The first error text of a run, if any check has one. */
  lemma {:induction false} FirstErrorIs(obs: seq<Observation>) returns (p: nat)
    ensures FirstError(obs).None? ==> forall k :: 0 <= k < |obs| ==> obs[k].error.None?
    ensures FirstError(obs).Some? ==>
      p < |obs| && FirstError(obs) == obs[p].error && forall k :: 0 <= k < p ==> obs[k].error.None?
  {
    p := 0;
    if obs != [] && obs[0].error.None? {
      var q := FirstErrorIs(obs[1..]);
      p := q + 1;
      if FirstError(obs).Some? {
        forall k | 0 <= k < p ensures obs[k].error.None? {
          assert k > 0 ==> obs[k] == obs[1..][k - 1];
        }
      } else {
        forall k | 0 <= k < |obs| ensures obs[k].error.None? {
          assert k > 0 ==> obs[k] == obs[1..][k - 1];
        }
      }
    }
  }

  /** Every incident, field by field: its checks `obs[i..j]` are all down or in error, with none such next to
      them; it starts at the first, has the last one's status, their number, the first error text among them at
      place `p`, and, if a check follows and they are at least two, the last one's time and the whole seconds
      from first to last. */
  lemma {:induction false} IncidentFields(target: nat, obs: seq<Observation>, n: nat) returns (i: nat, j: nat, p: nat)
    requires n < |IncidentsFrom(target, obs, 0)|
    ensures n < |RunsFrom(obs, 0)| && RunsFrom(obs, 0)[n] == (i, j)
    ensures i < j <= |obs| && forall k :: i <= k < j ==> obs[k].status == Down || obs[k].status == Error
    ensures i > 0 ==> obs[i - 1].status == Up || obs[i - 1].status == Degraded
    ensures j < |obs| ==> obs[j].status == Up || obs[j].status == Degraded
    ensures
      var inc := IncidentsFrom(target, obs, 0)[n];
      inc.target == target && inc.startedAt == obs[i].at && inc.status == obs[j - 1].status &&
      inc.checkCount == j - i && inc.countsAsDowntime &&
      (inc.errorSample.None? ==> forall k :: i <= k < j ==> obs[k].error.None?) &&
      (inc.errorSample.Some? ==>
         i <= p < j && inc.errorSample == obs[p].error && forall k :: i <= k < p ==> obs[k].error.None?) &&
      (j < |obs| && j - i >= 2 && obs[i].at <= obs[j - 1].at ==>
         inc.endedAt == Some(obs[j - 1].at) &&
         inc.durationSecs == Some((obs[j - 1].at - obs[i].at) / 1_000_000_000)) &&
      (j == |obs| || j - i == 1 ==> inc.endedAt.None? && inc.durationSecs.None?)
  {
    OneIncidentPerRun(target, obs);
    i, j := RunsFrom(obs, 0)[n].0, RunsFrom(obs, 0)[n].1;
    assert MaximalRun(obs, i, j);
    var q := FirstErrorIs(obs[i..j]);
    p := i + q;
    assert forall k :: i <= k < j ==> obs[k] == obs[i..j][k - i];
  }

  /** And every check that is down or in error belongs to one of them. */
  lemma {:induction false} EveryBadCheckCounted(obs: seq<Observation>, from: nat, k: nat) returns (n: nat)
    requires from <= k < |obs| && (obs[k].status == Down || obs[k].status == Error)
    ensures n < |RunsFrom(obs, from)| && RunsFrom(obs, from)[n].0 <= k < RunsFrom(obs, from)[n].1
    decreases |obs| - from
  {
    if !Bad(obs[from]) {
      n := EveryBadCheckCounted(obs, from + 1, k);
    } else {
      var j := BadUntil(obs, from + 1);
      if k < j {
        n := 0;
      } else {
        var m := EveryBadCheckCounted(obs, j, k);
        n := m + 1;
      }
    }
  }
}
