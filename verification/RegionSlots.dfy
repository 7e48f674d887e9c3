/** One region of the ad-hoc dispatcher: its bounded queue, its notify permit and its holders.

    A `claim` and a `dispatch` call are cut at the points where another task can run: each action
    below is one lock section, one atomic operation or one poll. */
module RegionSlots {
  import opened Common

  type CheckId = nat
  type HolderId = nat

  datatype Kind = Test | CheckNow

  datatype Check = Check(id: CheckId, kind: Kind, org: nat, target: Option<nat>, spec: string)

  const MAX_QUEUE := 256

  /** Where a `claim` call is: about to lock the queue; past an empty look, its notification not yet
      polled; registered with the notify; handed a wake-up it has not acted on; on its way out. */
  datatype Phase = Looking | FoundEmpty | Asleep | Woken | Leaving

  datatype Claim = Claim(limit: nat, phase: Phase)

  datatype Removal = Claimed(holder: HolderId, check: Check) | Evicted(check: Check)

  datatype Slot = Slot(
    queue: seq<Check>,
    permit: bool,
    asleep: seq<HolderId>,           // registered waiters, oldest first
    holders: nat,                    // the liveness counter
    claims: map<HolderId, Claim>,    // calls in flight
    unnotified: nat,                 // dispatchers between their push and their notify_one
    pushed: seq<Check>,              // every check ever queued, in order
    removed: seq<Removal>)           // every check ever taken off, in order

  const FRESH := Slot([], false, [], 0, map[], 0, [], [])

  // ----- Atomic steps -----

  function At(s: Slot, h: HolderId, phase: Phase): Slot
    requires h in s.claims
  {
    s.(claims := s.claims[h := s.claims[h].(phase := phase)])
  }

  predicate Is(s: Slot, h: HolderId, phase: Phase) {
    h in s.claims && s.claims[h].phase == phase
  }

  function Enter(s: Slot, h: HolderId, limit: nat): Slot {
    s.(holders := s.holders + 1, claims := s.claims[h := Claim(limit, Looking)])
  }

  function Batch(s: Slot, limit: nat): nat { Min(|s.queue|, Max(limit, 1)) }

  function Taken(h: HolderId, checks: seq<Check>): (r: seq<Removal>)
    ensures |r| == |checks|
    ensures forall k :: 0 <= k < |r| ==> r[k] == Claimed(h, checks[k])
  {
    seq(|checks|, k requires 0 <= k < |checks| => Claimed(h, checks[k]))
  }

  /** The lock section of `claim`: drain a batch, or find nothing. */
  function Look(s: Slot, h: HolderId): Slot
    requires h in s.claims
  {
    if s.queue == [] then At(s, h, FoundEmpty)
    else
      var n := Batch(s, s.claims[h].limit);
      At(s, h, Leaving).(queue := s.queue[n..], removed := s.removed + Taken(h, s.queue[..n]))
  }

  /** `notify_one`: hand the wake-up to the oldest waiter, or store the one permit. */
  function WakeNext(s: Slot): Slot {
    if s.asleep == [] then s.(permit := true)
    else if s.asleep[0] in s.claims then At(s, s.asleep[0], Woken).(asleep := s.asleep[1..])
    else s.(asleep := s.asleep[1..])
  }

  /** First poll of the notification: use up the permit, or register. */
  function Poll(s: Slot, h: HolderId): Slot
    requires h in s.claims
  {
    if s.permit then At(s, h, Looking).(permit := false)
    else At(s, h, Asleep).(asleep := s.asleep + [h])
  }

  function Without(q: seq<HolderId>, h: HolderId): seq<HolderId> {
    if q == [] then [] else (if q[0] == h then [] else [q[0]]) + Without(q[1..], h)
  }

  /** Time-out or cancellation: the notification is dropped, and a wake-up it holds is passed on. */
  function GiveUp(s: Slot, h: HolderId): Slot
    requires h in s.claims
  {
    var gone := At(s, h, Leaving);
    match s.claims[h].phase
    case Asleep => gone.(asleep := Without(s.asleep, h))
    case Woken => WakeNext(gone)
    case _ => gone
  }

  function Depart(s: Slot, h: HolderId): Slot {
    s.(holders := Max(s.holders - 1, 0), claims := s.claims - {h})
  }

  /** The lock section of `dispatch`: at the cap the oldest queued check makes room. */
  function Push(s: Slot, c: Check): Slot {
    var full := |s.queue| >= MAX_QUEUE;
    s.(queue := (if full then s.queue[1..] else s.queue) + [c],
       removed := if full then s.removed + [Evicted(s.queue[0])] else s.removed,
       pushed := s.pushed + [c],
       unnotified := s.unnotified + 1)
  }

  function Notify(s: Slot): Slot {
    WakeNext(s.(unnotified := Max(s.unnotified - 1, 0)))
  }

  datatype Action =
    | DoEnter(h: HolderId, limit: nat)
    | DoLook(h: HolderId)
    | DoPoll(h: HolderId)
    | DoWake(h: HolderId)
    | DoGiveUp(h: HolderId)
    | DoDepart(h: HolderId)
    | DoPush(check: Check)
    | DoNotify

  /** How a region is used: at most `holders` claims at once, none with a limit below `batch`. */
  datatype Usage = Usage(holders: nat, batch: nat)

  predicate Enabled(u: Usage, s: Slot, a: Action) {
    match a
    case DoEnter(h, limit) => h !in s.claims && |s.claims| < u.holders && u.batch <= limit
    case DoLook(h) => Is(s, h, Looking)
    case DoPoll(h) => Is(s, h, FoundEmpty)
    case DoWake(h) => Is(s, h, Woken)
    case DoGiveUp(h) => Is(s, h, FoundEmpty) || Is(s, h, Asleep) || Is(s, h, Woken)
    case DoDepart(h) => Is(s, h, Leaving)
    case DoPush(c) => true
    case DoNotify => s.unnotified > 0
  }

  /** One step of any task; a step that is not enabled changes nothing. */
  function Step(u: Usage, s: Slot, a: Action): Slot {
    if !Enabled(u, s, a) then s
    else
      match a
      case DoEnter(h, limit) => Enter(s, h, limit)
      case DoLook(h) => Look(s, h)
      case DoPoll(h) => Poll(s, h)
      case DoWake(h) => At(s, h, Looking)
      case DoGiveUp(h) => GiveUp(s, h)
      case DoDepart(h) => Depart(s, h)
      case DoPush(c) => Push(s, c)
      case DoNotify => Notify(s)
  }

  /** Any interleaving is a sequence of actions. */
  function Run(u: Usage, s: Slot, acts: seq<Action>): Slot
    decreases |acts|
  {
    if acts == [] then s else Run(u, Step(u, s, acts[0]), acts[1..])
  }

  lemma {:induction false} RunAppend(u: Usage, s: Slot, a: seq<Action>, b: seq<Action>)
    ensures Run(u, s, a + b) == Run(u, Run(u, s, a), b)
    decreases |a|
  {
    if a == [] {
      assert a + b == b;
    } else {
      assert (a + b)[1..] == a[1..] + b;
      RunAppend(u, Step(u, s, a[0]), a[1..], b);
    }
  }

  lemma {:induction false} Run3(u: Usage, s: Slot, a: Action, b: Action, c: Action)
    ensures Run(u, s, [a, b, c]) == Step(u, Step(u, Step(u, s, a), b), c)
  {
    var s1 := Step(u, s, a);
    var s2 := Step(u, s1, b);
    assert [a, b, c][1..] == [b, c] && [b, c][1..] == [c] && [c][1..] == [];
    assert Run(u, s1, [b, c]) == Run(u, s2, [c]) == Step(u, s2, c);
  }

  // ----- Conservation and order -----

  function Checks(removed: seq<Removal>): (r: seq<Check>)
    ensures |r| == |removed|
    ensures forall k :: 0 <= k < |r| ==> r[k] == removed[k].check
  {
    seq(|removed|, k requires 0 <= k < |removed| => removed[k].check)
  }

  /** Queue: bounded, and exactly what was dispatched minus what was taken, in dispatch order, so that
      every claim and every eviction took the oldest check left. */
  ghost predicate Conserved(s: Slot) {
    |s.queue| <= MAX_QUEUE && s.pushed == Checks(s.removed) + s.queue
  }

  ghost predicate Distinct(q: seq<HolderId>) {
    forall i, j :: 0 <= i < j < |q| ==> q[i] != q[j]
  }

  /** The liveness counter counts the claims in flight, and a waiter is registered exactly while it
      sleeps, once; no permit is stored while anyone is registered. */
  ghost predicate Counted(s: Slot) {
    s.holders == |s.claims| &&
    (forall h :: h in s.asleep <==> Is(s, h, Asleep)) &&
    Distinct(s.asleep) &&
    (s.permit ==> s.asleep == [])
  }

  lemma {:induction false} LookConserves(s: Slot, h: HolderId)
    requires Conserved(s) && h in s.claims
    ensures Conserved(Look(s, h))
  {
    if s.queue != [] {
      var n := Batch(s, s.claims[h].limit);
      assert s.queue == s.queue[..n] + s.queue[n..];
      assert Checks(s.removed + Taken(h, s.queue[..n])) == Checks(s.removed) + s.queue[..n];
    }
  }

  lemma {:induction false} PushConserves(s: Slot, c: Check)
    requires Conserved(s)
    ensures Conserved(Push(s, c))
  {
    if |s.queue| >= MAX_QUEUE {
      assert s.queue == [s.queue[0]] + s.queue[1..];
      assert Checks(s.removed + [Evicted(s.queue[0])]) == Checks(s.removed) + [s.queue[0]];
    }
  }

  lemma OtherStepsKeepQueue(u: Usage, s: Slot, a: Action)
    requires !a.DoLook? && !a.DoPush?
    ensures
      var t := Step(u, s, a);
      t.queue == s.queue && t.pushed == s.pushed && t.removed == s.removed
  {
  }

  lemma {:induction false} StepConserves(u: Usage, s: Slot, a: Action)
    requires Conserved(s)
    ensures Conserved(Step(u, s, a))
  {
    if a.DoPush? {
      PushConserves(s, a.check);
    } else if a.DoLook? {
      if Is(s, a.h, Looking) {
        LookConserves(s, a.h);
      }
    } else {
      OtherStepsKeepQueue(u, s, a);
    }
  }

  lemma {:induction false} WithoutRemoves(q: seq<HolderId>, h: HolderId)
    requires Distinct(q)
    ensures forall x :: x in Without(q, h) <==> x in q && x != h
    ensures Distinct(Without(q, h))
  {
    if q != [] {
      var rest := Without(q[1..], h);
      WithoutRemoves(q[1..], h);
      assert forall x :: x in q <==> x == q[0] || x in q[1..];
      forall j | 0 <= j < |rest| ensures rest[j] != q[0] {
        assert rest[j] in q[1..];
      }
    }
  }

  lemma {:induction false} WakeNextCounted(s: Slot)
    requires Counted(s)
    ensures Counted(WakeNext(s))
  {
    if s.asleep != [] {
      var h, t := s.asleep[0], WakeNext(s);
      assert t.claims.Keys == s.claims.Keys;
      assert |t.claims| == |t.claims.Keys| == |s.claims|;
      assert forall x :: x in s.asleep <==> x == h || x in s.asleep[1..];
    }
  }

  /** Moving one claim on is not a new claim. */
  lemma {:induction false} AtKeepsCount(s: Slot, h: HolderId, phase: Phase)
    requires h in s.claims
    ensures |At(s, h, phase).claims| == |s.claims|
  {
  }

  lemma {:induction false} GiveUpCounts(s: Slot, h: HolderId)
    requires Counted(s) && h in s.claims
    ensures Counted(GiveUp(s, h))
  {
    WithoutRemoves(s.asleep, h);
    AtKeepsCount(s, h, Leaving);
    if s.claims[h].phase == Woken {
      WakeNextCounted(At(s, h, Leaving));
    }
  }

  lemma {:induction false} PollCounts(s: Slot, h: HolderId)
    requires Counted(s) && Is(s, h, FoundEmpty)
    ensures Counted(Poll(s, h))
  {
    AtKeepsCount(s, h, if s.permit then Looking else Asleep);
    assert forall k :: 0 <= k < |s.asleep| ==> s.asleep[k] in s.asleep;
  }

  lemma {:induction false} EntryCounts(u: Usage, s: Slot, a: Action)
    requires Counted(s) && Enabled(u, s, a) && (a.DoEnter? || a.DoDepart?)
    ensures Counted(Step(u, s, a))
  {
    var t := Step(u, s, a);
    if a.DoDepart? {
      assert t.claims.Keys == s.claims.Keys - {a.h};
      assert |t.claims| == |t.claims.Keys| == |s.claims| - 1;
    }
  }

  lemma {:induction false} StepCounts(u: Usage, s: Slot, a: Action)
    requires Counted(s)
    ensures Counted(Step(u, s, a))
  {
    if Enabled(u, s, a) {
      match a {
        case DoEnter(h, limit) => EntryCounts(u, s, a);
        case DoDepart(h) => EntryCounts(u, s, a);
        case DoPush(c) =>
        case DoPoll(h) => PollCounts(s, h);
        case DoNotify => WakeNextCounted(s.(unnotified := s.unnotified - 1));
        case DoGiveUp(h) => GiveUpCounts(s, h);
        case DoLook(h) => AtKeepsCount(s, h, if s.queue == [] then FoundEmpty else Leaving);
        case DoWake(h) => AtKeepsCount(s, h, Looking);
      }
    }
  }

  /** Both hold in every reachable state of every use of the region. */
  lemma {:induction false} QueueConservedAndCounted(u: Usage, s: Slot, acts: seq<Action>)
    requires Conserved(s) && Counted(s)
    ensures Conserved(Run(u, s, acts)) && Counted(Run(u, s, acts))
    decreases |acts|
  {
    if acts != [] {
      StepConserves(u, s, acts[0]);
      StepCounts(u, s, acts[0]);
      QueueConservedAndCounted(u, Step(u, s, acts[0]), acts[1..]);
    }
  }

  // ----- No lost wake-up -----

  /** The holder has found the queue empty and nothing has woken it since. */
  predicate Unwoken(s: Slot, h: HolderId) {
    Is(s, h, FoundEmpty) || Is(s, h, Asleep)
  }

  /** Something will still look at the queue: a stored permit, a dispatcher about to notify, a
      wake-up being acted on. */
  ghost predicate Stirring(s: Slot) {
    s.permit || s.unnotified > 0 || exists h :: Is(s, h, Looking) || Is(s, h, Woken)
  }

  /** A check is queued, a holder is waiting, and nothing will bring them together. */
  ghost predicate Stranded(s: Slot) {
    s.queue != [] && (exists h :: Unwoken(s, h)) && !Stirring(s)
  }

  ghost predicate WithinUsage(u: Usage, s: Slot) {
    |s.claims| <= u.holders &&
    forall h :: h in s.claims ==> u.batch <= s.claims[h].limit
  }

  lemma {:induction false} StepWithinUsage(u: Usage, s: Slot, a: Action)
    requires WithinUsage(u, s)
    ensures WithinUsage(u, Step(u, s, a))
  {
    if Enabled(u, s, a) {
      var t := Step(u, s, a);
      if a.DoEnter? {
        assert |t.claims| <= |s.claims| + 1;
      } else {
        OtherStepsKeepLimits(u, s, a);
        KeysBound(t.claims, s.claims);
      }
    }
  }

  lemma OtherStepsKeepLimits(u: Usage, s: Slot, a: Action)
    requires !a.DoEnter?
    ensures
      var t := Step(u, s, a);
      forall h :: h in t.claims ==> h in s.claims && t.claims[h].limit == s.claims[h].limit
  {
  }

  lemma {:induction false} KeysBound(a: map<HolderId, Claim>, b: map<HolderId, Claim>)
    requires a.Keys <= b.Keys
    ensures |a| <= |b|
  {
    var rest := b.Keys - a.Keys;
    assert b.Keys == a.Keys + rest;
    assert |b.Keys| == |a.Keys| + |rest|;
    assert |a| == |a.Keys| && |b| == |b.Keys|;
  }

  lemma {:induction false} TwoClaims(claims: map<HolderId, Claim>, h: HolderId, k: HolderId)
    requires h != k && h in claims && k in claims
    ensures |claims| >= 2
  {
    var two := map[h := claims[h], k := claims[k]];
    KeysBound(two, claims);
    assert two.Keys == {h, k} && |two| == |two.Keys|;
  }

  predicate NeverStrands(u: Usage) {
    u.holders <= 1 || u.batch >= MAX_QUEUE
  }

  lemma {:induction false} StepNotStranded(u: Usage, s: Slot, a: Action)
    requires NeverStrands(u) && WithinUsage(u, s) && Conserved(s) && Counted(s)
    requires !Stranded(s)
    ensures !Stranded(Step(u, s, a))
  {
    if Enabled(u, s, a) {
      var t := Step(u, s, a);
      match a {
        case DoEnter(h, limit) => assert Is(t, h, Looking);
        case DoWake(h) => assert Is(t, h, Looking);
        case DoLook(h) =>
          if s.queue != [] && t.queue != [] {
            assert u.holders <= 1;
            forall k | k in t.claims && k != h ensures |s.claims| >= 2 {
              TwoClaims(s.claims, h, k);
            }
          }
        case DoNotify => Handed(s.(unnotified := s.unnotified - 1));
        case DoGiveUp(h) =>
          if s.claims[h].phase == Woken {
            Handed(At(s, h, Leaving));
          } else {
            Kept(s, t, h);
          }
        case DoPoll(h) =>
          if s.permit {
            assert Is(t, h, Looking);
          } else {
            assert Unwoken(s, h);
            Kept(s, t, h);
          }
        case DoDepart(h) => Kept(s, t, h);
        case DoPush(c) =>
      }
    }
  }

  /** A wake-up is never lost: it reaches a waiter or becomes the permit. */
  lemma {:induction false} Handed(s: Slot)
    requires forall h :: h in s.asleep <==> Is(s, h, Asleep)
    ensures Stirring(WakeNext(s))
  {
    if s.asleep != [] {
      assert s.asleep[0] in s.asleep;
      assert Is(WakeNext(s), s.asleep[0], Woken);
    }
  }

  /** A step of one holder that is not looking leaves everybody else's reason to look. */
  lemma {:induction false} Kept(s: Slot, t: Slot, h: HolderId)
    requires !Is(s, h, Looking) && !Is(s, h, Woken)
    requires forall k :: k != h ==> (k in s.claims <==> k in t.claims)
    requires forall k :: k != h && k in s.claims ==> s.claims[k] == t.claims[k]
    requires s.queue == t.queue && s.permit == t.permit && s.unnotified == t.unnotified
    requires Unwoken(t, h) ==> Unwoken(s, h)
    requires !Stranded(s)
    ensures !Stranded(t)
  {
    if k :| t.queue != [] && Unwoken(t, k) {
      assert Unwoken(s, k);
      assert Stirring(s);
      if !s.permit && s.unnotified == 0 {
        var w :| Is(s, w, Looking) || Is(s, w, Woken);
        assert Is(t, w, Looking) || Is(t, w, Woken);
      }
    }
  }

  lemma {:induction false} NotStrandedAlong(u: Usage, s: Slot, acts: seq<Action>)
    requires NeverStrands(u) && WithinUsage(u, s) && Conserved(s) && Counted(s) && !Stranded(s)
    ensures !Stranded(Run(u, s, acts))
    decreases |acts|
  {
    if acts != [] {
      StepNotStranded(u, s, acts[0]);
      StepWithinUsage(u, s, acts[0]);
      StepConserves(u, s, acts[0]);
      StepCounts(u, s, acts[0]);
      NotStrandedAlong(u, Step(u, s, acts[0]), acts[1..]);
    }
  }

  // ----- The condition is exact -----

  function Nth(k: nat): Check { Check(k, Test, 0, None, "") }

  function Numbered(n: nat): seq<Check> { if n == 0 then [] else Numbered(n - 1) + [Nth(n - 1)] }

  function Pushes(n: nat): seq<Action> { if n == 0 then [] else Pushes(n - 1) + [DoPush(Nth(n - 1))] }

  lemma {:induction false} PushMany(u: Usage, s: Slot, n: nat)
    requires |s.queue| + n <= MAX_QUEUE
    ensures |Numbered(n)| == n
    ensures Run(u, s, Pushes(n)) ==
      s.(queue := s.queue + Numbered(n), pushed := s.pushed + Numbered(n), unnotified := s.unnotified + n)
  {
    if n == 0 {
      assert s.queue + [] == s.queue && s.pushed + [] == s.pushed;
    } else {
      PushMany(u, s, n - 1);
      RunAppend(u, s, Pushes(n - 1), [DoPush(Nth(n - 1))]);
      var m := Run(u, s, Pushes(n - 1));
      assert Run(u, m, [DoPush(Nth(n - 1))]) == Step(u, m, DoPush(Nth(n - 1)));
      assert m.queue + [Nth(n - 1)] == s.queue + Numbered(n);
      assert m.pushed + [Nth(n - 1)] == s.pushed + Numbered(n);
    }
  }

  function Notifies(n: nat): seq<Action> { seq(n, _ => DoNotify) }

  lemma {:induction false} NotifyMany(u: Usage, s: Slot, n: nat)
    requires 0 < n <= s.unnotified && s.asleep == []
    ensures Run(u, s, Notifies(n)) == s.(unnotified := s.unnotified - n, permit := true)
    decreases n
  {
    var t := Step(u, s, DoNotify);
    assert t == s.(unnotified := s.unnotified - 1, permit := true);
    assert Notifies(n)[1..] == Notifies(n - 1);
    if n > 1 {
      NotifyMany(u, t, n - 1);
    } else {
      assert Notifies(0) == [];
    }
  }

  /** Two holders look before `n` checks arrive; the notifications of all of them merge into one permit. */
  function Prelude(limit: nat, n: nat): seq<Action> {
    [DoEnter(0, limit), DoEnter(1, limit), DoLook(0), DoLook(1)] + Pushes(n) + Notifies(n)
  }

  lemma {:induction false} PreludeState(u: Usage, limit: nat, n: nat)
    requires u.holders >= 2 && u.batch <= limit && 0 < n <= MAX_QUEUE
    ensures |Numbered(n)| == n
    ensures Run(u, FRESH, Prelude(limit, n)) ==
      Slot(Numbered(n), true, [], 2, map[0 := Claim(limit, FoundEmpty), 1 := Claim(limit, FoundEmpty)], 0, Numbered(n), [])
  {
    var opening := [DoEnter(0, limit), DoEnter(1, limit), DoLook(0), DoLook(1)];
    var s1 := Step(u, FRESH, opening[0]);
    var s2 := Step(u, s1, opening[1]);
    var s3 := Step(u, s2, opening[2]);
    var s4 := Step(u, s3, opening[3]);
    assert s1 == Slot([], false, [], 1, map[0 := Claim(limit, Looking)], 0, [], []);
    assert s2 == Slot([], false, [], 2, map[0 := Claim(limit, Looking), 1 := Claim(limit, Looking)], 0, [], []);
    assert s4 == Slot([], false, [], 2, map[0 := Claim(limit, FoundEmpty), 1 := Claim(limit, FoundEmpty)], 0, [], []);
    assert Run(u, FRESH, opening) == s4 by {
      Run3(u, s1, opening[1], opening[2], opening[3]);
      assert opening[1..] == [opening[1], opening[2], opening[3]];
    }
    RunAppend(u, FRESH, opening + Pushes(n), Notifies(n));
    RunAppend(u, FRESH, opening, Pushes(n));
    PushMany(u, s4, n);
    NotifyMany(u, Run(u, s4, Pushes(n)), n);
    assert [] + Numbered(n) == Numbered(n);
  }

  ghost predicate StrandsAfter(u: Usage, acts: seq<Action>) {
    Stranded(Run(u, FRESH, acts))
  }

  /** Otherwise a reachable state is stranded: the permit wakes one holder, it leaves the last check
      behind, and the other goes to sleep beside it. */
  lemma {:induction false} StrandingRun(u: Usage) returns (acts: seq<Action>)
    requires !NeverStrands(u)
    ensures StrandsAfter(u, acts)
  {
    var limit := u.batch;
    var n := Max(limit, 1) + 1;
    var ending := [DoPoll(0), DoPoll(1), DoLook(0)];
    acts := Prelude(limit, n) + ending;
    RunAppend(u, FRESH, Prelude(limit, n), ending);
    PreludeState(u, limit, n);
    var s := Run(u, FRESH, Prelude(limit, n));
    Run3(u, s, DoPoll(0), DoPoll(1), DoLook(0));
    LastOneLeft(u, s, limit, n);
  }

  lemma {:induction false} LastOneLeft(u: Usage, s: Slot, limit: nat, n: nat)
    requires n == Max(limit, 1) + 1 && |s.queue| == n && s.permit && s.asleep == [] && s.unnotified == 0
    requires s.claims == map[0 := Claim(limit, FoundEmpty), 1 := Claim(limit, FoundEmpty)]
    ensures Stranded(Step(u, Step(u, Step(u, s, DoPoll(0)), DoPoll(1)), DoLook(0)))
  {
    var s1 := Step(u, s, DoPoll(0));
    assert s1 == Poll(s, 0) && s1.claims == map[0 := Claim(limit, Looking), 1 := Claim(limit, FoundEmpty)];
    var s2 := Step(u, s1, DoPoll(1));
    assert s2 == Poll(s1, 1) && s2.claims == map[0 := Claim(limit, Looking), 1 := Claim(limit, Asleep)];
    var s3 := Step(u, s2, DoLook(0));
    assert s3 == Look(s2, 0) && s3.claims == map[0 := Claim(limit, Leaving), 1 := Claim(limit, Asleep)];
    assert Unwoken(s3, 1);
  }

  /** No lost wake-up, exactly: no reachable state strands a check if and only if at most one holder
      claims at a time or every claim takes a whole queue. */
  lemma {:induction false} NoLostWakeUpIff(u: Usage)
    ensures (forall acts :: !StrandsAfter(u, acts)) <==> NeverStrands(u)
  {
    if NeverStrands(u) {
      forall acts ensures !StrandsAfter(u, acts) {
        NotStrandedAlong(u, FRESH, acts);
      }
    } else {
      var acts := StrandingRun(u);
    }
  }
}
