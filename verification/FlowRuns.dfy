/** What the agent keeps of its flow runs until an upload is acknowledged. */
module FlowRuns {
  import opened Common

  const MAX_PENDING_FLOW_RUNS := 512

  function Last<T>(s: seq<T>, n: nat): (r: seq<T>)
    ensures |r| == Min(|s|, n)
  {
    if |s| <= n then s else s[|s| - n..]
  }

  function First<T>(s: seq<T>, n: nat): (r: seq<T>)
    ensures |r| == Min(|s|, n)
  {
    if |s| <= n then s else s[..n]
  }

  /** How many of `n` do not fit. */
  function Excess(n: nat): nat { Max(n - MAX_PENDING_FLOW_RUNS, 0) }

  class PendingFlowRuns<T> {
    var runs: seq<T>
    var dropped: nat      // the buffer-full counter

    ghost predicate Valid()
      reads this
    {
      |runs| <= MAX_PENDING_FLOW_RUNS
    }

    constructor ()
      ensures Valid() && runs == [] && dropped == 0
    {
      runs, dropped := [], 0;
    }

    method Take() returns (batch: seq<T>)
      requires Valid()
      modifies this
      ensures Valid() && batch == old(runs) && runs == [] && dropped == old(dropped)
    {
      batch := runs;
      runs := [];
    }

    /** A failed batch goes back in front; what does not fit is the newest. */
    method Restore(batch: seq<T>)
      requires Valid()
      modifies this
      ensures Valid() && runs == First(batch + old(runs), MAX_PENDING_FLOW_RUNS)
      ensures dropped == old(dropped) + Excess(|batch| + |old(runs)|)
      ensures runs == (batch + old(runs))[..|runs|]
      ensures |batch| + |old(runs)| <= 512 ==> |runs| == |batch| + |old(runs)| && dropped == old(dropped)
      ensures |batch| + |old(runs)| > 512 ==>
        |runs| == 512 && dropped == old(dropped) + |batch| + |old(runs)| - 512
    {
      var i := |batch|;
      assert batch[i..] + runs == runs;
      while i > 0
        invariant 0 <= i <= |batch|
        invariant runs == First(batch[i..] + old(runs), MAX_PENDING_FLOW_RUNS)
        invariant dropped == old(dropped) + Excess(|batch| - i + |old(runs)|)
      {
        i := i - 1;
        if |runs| >= MAX_PENDING_FLOW_RUNS {
          runs := runs[..|runs| - 1];
          dropped := dropped + 1;
        }
        assert batch[i..] + old(runs) == [batch[i]] + (batch[i + 1..] + old(runs));
        runs := [batch[i]] + runs;
      }
      assert batch[0..] == batch;
    }

    /** New runs go to the back; what does not fit is the oldest. */
    method WriteRuns(incoming: seq<T>)
      requires Valid()
      modifies this
      ensures Valid() && runs == Last(old(runs) + incoming, MAX_PENDING_FLOW_RUNS)
      ensures dropped == old(dropped) + Excess(|old(runs)| + |incoming|)
      ensures |old(runs)| + |incoming| <= 512 ==> runs == old(runs) + incoming && dropped == old(dropped)
      ensures |old(runs)| + |incoming| > 512 ==>
        runs == (old(runs) + incoming)[|old(runs)| + |incoming| - 512..] &&
        dropped == old(dropped) + |old(runs)| + |incoming| - 512
    {
      assert runs + incoming[..0] == runs;
      for i := 0 to |incoming|
        invariant runs == Last(old(runs) + incoming[..i], MAX_PENDING_FLOW_RUNS)
        invariant dropped == old(dropped) + Excess(|old(runs)| + i)
      {
        if |runs| >= MAX_PENDING_FLOW_RUNS {
          runs := runs[1..];
          dropped := dropped + 1;
        }
        assert old(runs) + incoming[..i + 1] == (old(runs) + incoming[..i]) + [incoming[i]];
        runs := runs + [incoming[i]];
      }
      assert incoming[..|incoming|] == incoming;
    }
  }

  // ----- Every run of the agent -----

  /** `a` is `b` with some elements left out. */
  predicate Subsequence<T(==)>(a: seq<T>, b: seq<T>)
    decreases |b|
  {
    if a == [] then true
    else if b == [] then false
    else
      var a', b' := a[..|a| - 1], b[..|b| - 1];
      (a[|a| - 1] == b[|b| - 1] && Subsequence(a', b')) || Subsequence(a, b')
  }

  lemma {:induction false} BothGrow<T>(a: seq<T>, b: seq<T>, more: seq<T>)
    requires Subsequence(a, b)
    ensures Subsequence(a + more, b + more)
    decreases |more|
  {
    if more == [] {
      assert a + more == a && b + more == b;
    } else {
      var m := more[..|more| - 1];
      BothGrow(a, b, m);
      assert (a + more)[..|a + more| - 1] == a + m;
      assert (b + more)[..|b + more| - 1] == b + m;
    }
  }

  /** Leaving out a stretch from the middle or the end leaves a subsequence. */
  lemma {:induction false} MiddleLeftOut<T>(a: seq<T>, m: seq<T>, c: seq<T>, b: seq<T>)
    requires Subsequence(a + m + c, b)
    ensures Subsequence(a + c, b)
    decreases |b|
  {
    var s := a + m + c;
    if s != [] && a + c != [] {
      var b' := b[..|b| - 1];
      if c != [] {
        var c' := c[..|c| - 1];
        assert s[..|s| - 1] == a + m + c' && (a + c)[..|a + c| - 1] == a + c';
        if s[|s| - 1] == b[|b| - 1] && Subsequence(s[..|s| - 1], b') {
          MiddleLeftOut(a, m, c', b');
        } else {
          MiddleLeftOut(a, m, c, b');
        }
      } else if m != [] {
        var m' := m[..|m| - 1];
        assert a + c == a && s[..|s| - 1] == a + m' + c;
        if Subsequence(s, b') {
          MiddleLeftOut(a, m, c, b');
        } else {
          MiddleLeftOut(a, m', c, b');
        }
      } else {
        assert s == a + c;
      }
    }
  }

  /** What the workers produced, what the control plane acknowledged, the batch on the wire, the buffer. */
  datatype Agent<T> = Agent(
    produced: seq<T>, shipped: seq<T>, inFlight: Option<seq<T>>, queued: seq<T>, dropped: nat)

  function Idle<T>(): Agent<T> { Agent([], [], None, [], 0) }

  /** One batch is on the wire at a time; a failed one is restored. */
  datatype Event<T> = Produce(runs: seq<T>) | TakeBatch | Acked | Failed

  function Step<T>(s: Agent<T>, e: Event<T>): Agent<T> {
    match e
    case Produce(runs) =>
      s.(produced := s.produced + runs,
         queued := Last(s.queued + runs, MAX_PENDING_FLOW_RUNS),
         dropped := s.dropped + Excess(|s.queued| + |runs|))
    case TakeBatch => if s.inFlight.Some? then s else s.(inFlight := Some(s.queued), queued := [])
    case Acked => if s.inFlight.None? then s else s.(shipped := s.shipped + s.inFlight.value, inFlight := None)
    case Failed =>
      if s.inFlight.None? then s
      else
        s.(inFlight := None,
           queued := First(s.inFlight.value + s.queued, MAX_PENDING_FLOW_RUNS),
           dropped := s.dropped + Excess(|s.inFlight.value| + |s.queued|))
  }

  function Run<T>(s: Agent<T>, events: seq<Event<T>>): Agent<T>
    decreases |events|
  {
    if events == [] then s else Run(Step(s, events[0]), events[1..])
  }

  function Wire<T>(s: Agent<T>): seq<T> { if s.inFlight.Some? then s.inFlight.value else [] }

  ghost predicate Accounted<T(!new)>(s: Agent<T>) {
    |s.queued| <= MAX_PENDING_FLOW_RUNS && |Wire(s)| <= MAX_PENDING_FLOW_RUNS &&
    Subsequence(s.shipped + Wire(s) + s.queued, s.produced) &&
    |s.produced| == |s.shipped| + |Wire(s)| + |s.queued| + s.dropped
  }

  lemma {:induction false} ProduceAccounts<T(!new)>(s: Agent<T>, runs: seq<T>)
    requires Accounted(s)
    ensures Accounted(Step(s, Produce(runs)))
  {
    var t := Step(s, Produce(runs));
    var all, sent := s.queued + runs, s.shipped + Wire(s);
    var lost := all[..|all| - |t.queued|];
    BothGrow(sent + s.queued, s.produced, runs);
    assert sent + s.queued + runs == sent + lost + t.queued;
    MiddleLeftOut(sent, lost, t.queued, t.produced);
  }

  lemma {:induction false} FailedAccounts<T(!new)>(s: Agent<T>)
    requires Accounted(s) && s.inFlight.Some?
    ensures Accounted(Step(s, Failed))
  {
    var t := Step(s, Failed);
    var all := s.inFlight.value + s.queued;
    var lost, kept := all[|t.queued|..], s.shipped + t.queued;
    assert s.shipped + Wire(s) + s.queued == kept + lost + [];
    MiddleLeftOut(kept, lost, [], s.produced);
    assert t.shipped + Wire(t) + t.queued == kept + [];
  }

  lemma {:induction false} StepAccounts<T(!new)>(s: Agent<T>, e: Event<T>)
    requires Accounted(s)
    ensures Accounted(Step(s, e))
  {
    match e {
      case Produce(runs) => ProduceAccounts(s, runs);
      case Failed =>
        if s.inFlight.Some? {
          FailedAccounts(s);
        }
      case _ =>
        var t := Step(s, e);
        assert t.shipped + Wire(t) + t.queued == s.shipped + Wire(s) + s.queued;
    }
  }

  lemma {:induction false} AccountedAlong<T(!new)>(s: Agent<T>, events: seq<Event<T>>)
    requires Accounted(s)
    ensures Accounted(Run(s, events))
    decreases |events|
  {
    if events != [] {
      StepAccounts(s, events[0]);
      AccountedAlong(Step(s, events[0]), events[1..]);
    }
  }

  /** Left out but in order: the places in the longer list. */
  lemma {:induction false} SubsequencePlaces<T>(a: seq<T>, b: seq<T>) returns (at: seq<nat>)
    requires Subsequence(a, b)
    ensures |at| == |a| && (forall k :: 0 <= k < |a| ==> at[k] < |b| && b[at[k]] == a[k])
    ensures forall j, k :: 0 <= j < k < |a| ==> at[j] < at[k]
    decreases |b|
  {
    if a == [] {
      return [];
    }
    var a', b' := a[..|a| - 1], b[..|b| - 1];
    if a[|a| - 1] == b[|b| - 1] && Subsequence(a', b') {
      var front := SubsequencePlaces(a', b');
      at := front + [|b| - 1];
    } else {
      at := SubsequencePlaces(a, b');
    }
  }

  /** After any sequence of events: the buffer is bounded; shipped, on the wire and queued, in this
      order, are the produced runs in production order with some left out; and exactly as many are left
      out as the drop counter says. */
  lemma {:induction false} NothingLostUncounted<T(!new)>(events: seq<Event<T>>)
    ensures
      var s := Run(Idle<T>(), events);
      |s.queued| <= MAX_PENDING_FLOW_RUNS &&
      Subsequence(s.shipped + Wire(s) + s.queued, s.produced) &&
      |s.produced| == |s.shipped| + |Wire(s)| + |s.queued| + s.dropped
  {
    AccountedAlong(Idle<T>(), events);
  }

  // ----- Against the ingest endpoint's own cap -----

  /** The control plane refuses a batch with more flow runs than this. */
  const INGEST_MAX_FLOW_RUNS := 256

  /** No batch over the cap is ever acknowledged. */
  predicate Capped<T>(s: Agent<T>, events: seq<Event<T>>)
    decreases |events|
  {
    events == [] ||
    ((events[0].Acked? ==> |Wire(s)| <= INGEST_MAX_FLOW_RUNS) && Capped(Step(s, events[0]), events[1..]))
  }

  /** What must leave the agent before anything else can is over the cap. */
  predicate Wedged<T>(s: Agent<T>) {
    if s.inFlight.Some? && s.inFlight.value != []
    then |s.inFlight.value| > INGEST_MAX_FLOW_RUNS
    else |s.queued| > INGEST_MAX_FLOW_RUNS
  }

  /** A refused batch comes back whole, and the next one takes no less. */
  lemma {:induction false} WedgedForGood<T>(s: Agent<T>, events: seq<Event<T>>)
    requires Wedged(s) && Capped(s, events)
    ensures Wedged(Run(s, events)) && Run(s, events).shipped == s.shipped
    decreases |events|
  {
    if events != [] {
      var t := Step(s, events[0]);
      assert Wedged(t) && t.shipped == s.shipped;
      WedgedForGood(t, events[1..]);
    }
  }

  ghost predicate Ships<T(!new)>(s: Agent<T>, events: seq<Event<T>>) {
    Capped(s, events) && |Run(s, events).shipped| > |s.shipped|
  }

  lemma {:induction false} ShipsAfter<T(!new)>(s: Agent<T>, e: Event<T>, rest: seq<Event<T>>)
    requires e.Acked? ==> |Wire(s)| <= INGEST_MAX_FLOW_RUNS
    requires Capped(Step(s, e), rest) && |Run(Step(s, e), rest).shipped| > |s.shipped|
    ensures Ships(s, [e] + rest)
  {
  }

  /** How far the next shipment is: a batch on the wire, one to take, one to wait for, an empty one. */
  function Distance<T>(s: Agent<T>): nat {
    if s.inFlight.Some? then (if s.inFlight.value != [] then 0 else 3) else if s.queued != [] then 1 else 2
  }

  lemma {:induction false} ShipsOnceMore<T(!new)>(s: Agent<T>, x: T) returns (events: seq<Event<T>>)
    requires !Wedged(s)
    ensures Ships(s, events)
    decreases Distance(s)
  {
    var e := if s.inFlight.Some? then Acked else if s.queued != [] then TakeBatch else Produce([x]);
    var rest := [];
    if Distance(s) > 0 {
      rest := ShipsOnceMore(Step(s, e), x);
    }
    ShipsAfter(s, e, rest);
    events := [e] + rest;
  }

  /** The agent can ship another run, however the exchanges go from here, if and only if it is not
      wedged. */
  lemma {:induction false} ShipsAgainIff<T(!new)>(s: Agent<T>, x: T)
    ensures (exists events :: Ships(s, events)) <==> !Wedged(s)
  {
    if Wedged(s) {
      forall events ensures !Ships(s, events) {
        if Capped(s, events) {
          WedgedForGood(s, events);
        }
      }
    } else {
      var events := ShipsOnceMore(s, x);
    }
  }

  /** The buffer's own bound does not prevent it: a backlog wedges a fresh agent exactly when it is over
      the cap of the endpoint. */
  lemma {:induction false} BacklogWedges<T>(runs: seq<T>)
    ensures Wedged(Run(Idle<T>(), [Produce(runs)])) <==> |runs| > INGEST_MAX_FLOW_RUNS
  {
    assert [Produce(runs)][1..] == [];
    assert Run(Idle<T>(), [Produce(runs)]) == Step(Idle<T>(), Produce(runs));
  }
}
