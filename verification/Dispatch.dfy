/** The whole ad-hoc dispatcher: every region's slot together with the pending table. */
module Dispatch {
  import opened Common
  import opened RegionSlots
  import opened Routing

  datatype System = System(
    slots: map<Region, Slot>,
    dispatching: set<CheckId>,       // registered, not yet queued
    router: Router)

  const IDLE := System(map[], {}, EMPTY)

  function SlotOf(s: System, r: Region): Slot {
    if r in s.slots then s.slots[r] else FRESH
  }

  datatype Task =
    | Registers(region: Region, check: Check)
    | Queues(id: CheckId)
    | InRegion(region: Region, act: RegionSlots.Action)
    | InTable(entry: Routing.Action)

  predicate Ready(s: System, a: Task) {
    match a
    case Registers(r, c) => Routing.Enabled(s.router, DoRegister(r, c))
    case Queues(id) => id in s.dispatching && id in s.router.known
    case InRegion(r, act) => !act.DoPush?
    case InTable(entry) => !entry.DoRegister?
  }

  /** The table's part of a step: an eviction makes the table forget the oldest queued check. */
  function TablePart(s: System, a: Task): Option<Routing.Action> {
    match a
    case Registers(r, c) => Some(DoRegister(r, c))
    case Queues(id) =>
      if id in s.router.known then
        var slot := SlotOf(s, s.router.known[id].0);
        if |slot.queue| >= MAX_QUEUE then Some(DoForget(slot.queue[0].id)) else None
      else None
    case InRegion(r, act) => None
    case InTable(entry) => Some(entry)
  }

  /** The region whose slot a step changes, and the slot's own step. */
  function SlotPart(s: System, a: Task): Option<(Region, RegionSlots.Action)> {
    match a
    case Queues(id) =>
      if id in s.router.known then Some((s.router.known[id].0, DoPush(s.router.known[id].1))) else None
    case InRegion(r, act) => Some((r, act))
    case _ => None
  }

  function Slots(u: Usage, s: System, a: Task): map<Region, Slot> {
    match SlotPart(s, a)
    case None => s.slots
    case Some(p) => s.slots[p.0 := RegionSlots.Step(u, SlotOf(s, p.0), p.1)]
  }

  function Table(s: System, a: Task): Router {
    match TablePart(s, a)
    case None => s.router
    case Some(act) => Routing.Step(s.router, act)
  }

  /** One step of any task; a step that is not ready changes nothing. */
  function Next(u: Usage, s: System, a: Task): System {
    if !Ready(s, a) then s
    else
      System(Slots(u, s, a),
             match a
             case Registers(r, c) => s.dispatching + {c.id}
             case Queues(id) => s.dispatching - {id}
             case _ => s.dispatching,
             Table(s, a))
  }

  function Play(u: Usage, s: System, tasks: seq<Task>): System
    decreases |tasks|
  {
    if tasks == [] then s else Play(u, Next(u, s, tasks[0]), tasks[1..])
  }

  // ----- The parts behave as they do alone -----

  function TableActs(u: Usage, s: System, tasks: seq<Task>): seq<Routing.Action>
    decreases |tasks|
  {
    if tasks == [] then []
    else
      (if Ready(s, tasks[0]) && TablePart(s, tasks[0]).Some? then [TablePart(s, tasks[0]).value] else [])
      + TableActs(u, Next(u, s, tasks[0]), tasks[1..])
  }

  /** Whatever the regions do, the table goes through a run of its own, so everything proved of every
      run of the table holds in the system. */
  lemma {:induction false} TableRuns(u: Usage, s: System, tasks: seq<Task>)
    ensures Play(u, s, tasks).router == Routing.Run(s.router, TableActs(u, s, tasks))
    decreases |tasks|
  {
    if tasks != [] {
      var t := Next(u, s, tasks[0]);
      TableRuns(u, t, tasks[1..]);
      var first := if Ready(s, tasks[0]) && TablePart(s, tasks[0]).Some? then [TablePart(s, tasks[0]).value] else [];
      Routing.RunAppend(s.router, first, TableActs(u, t, tasks[1..]));
    }
  }

  function SlotActs(u: Usage, s: System, tasks: seq<Task>, r: Region): seq<RegionSlots.Action>
    decreases |tasks|
  {
    if tasks == [] then []
    else
      var p := SlotPart(s, tasks[0]);
      (if Ready(s, tasks[0]) && p.Some? && p.value.0 == r then [p.value.1] else [])
      + SlotActs(u, Next(u, s, tasks[0]), tasks[1..], r)
  }

  /** So does every region's slot. */
  lemma {:induction false} SlotRuns(u: Usage, s: System, tasks: seq<Task>, r: Region)
    ensures SlotOf(Play(u, s, tasks), r) == RegionSlots.Run(u, SlotOf(s, r), SlotActs(u, s, tasks, r))
    decreases |tasks|
  {
    if tasks != [] {
      var t := Next(u, s, tasks[0]);
      SlotRuns(u, t, tasks[1..], r);
      var p := SlotPart(s, tasks[0]);
      var first := if Ready(s, tasks[0]) && p.Some? && p.value.0 == r then [p.value.1] else [];
      RegionSlots.RunAppend(u, SlotOf(s, r), first, SlotActs(u, t, tasks[1..], r));
    }
  }

  /** In every reachable state of the dispatcher every region's queue is bounded and in dispatch order,
      its liveness counter is the number of claims in flight, and no wake-up is lost if the region's
      use allows it. */
  lemma {:induction false} EveryRegionSound(u: Usage, tasks: seq<Task>, r: Region)
    ensures
      var slot := SlotOf(Play(u, IDLE, tasks), r);
      Conserved(slot) && slot.holders == |slot.claims| && (NeverStrands(u) ==> !Stranded(slot))
  {
    SlotRuns(u, IDLE, tasks, r);
    var acts := SlotActs(u, IDLE, tasks, r);
    assert Checks([]) + [] == [];
    QueueConservedAndCounted(u, FRESH, acts);
    if NeverStrands(u) {
      NotStrandedAlong(u, FRESH, acts);
    }
  }

  // ----- Each check in one place -----

  /** A region's history holds known checks of that region, each once, and none still to come. */
  ghost predicate History(s: System, r: Region, pushed: seq<Check>) {
    (forall k :: 0 <= k < |pushed| ==>
       pushed[k].id in s.router.known && s.router.known[pushed[k].id] == (r, pushed[k]) &&
       pushed[k].id !in s.dispatching) &&
    (forall j, k :: 0 <= j < k < |pushed| ==> pushed[j].id != pushed[k].id)
  }

  ghost predicate Evictions(s: System, removed: seq<Removal>) {
    forall k :: 0 <= k < |removed| && removed[k].Evicted? ==>
      removed[k].check.id in s.router.known && removed[k].check.id !in s.router.pending
  }

  ghost predicate Placed(s: System) {
    TableSound(s.router) && s.dispatching <= s.router.known.Keys &&
    forall r :: r in s.slots ==>
      Conserved(s.slots[r]) && History(s, r, s.slots[r].pushed) && Evictions(s, s.slots[r].removed)
  }

  /** Outside a push a slot's step queues nothing and evicts nothing. */
  lemma SlotStepKeeps(u: Usage, s: Slot, a: RegionSlots.Action)
    requires !a.DoPush?
    ensures RegionSlots.Step(u, s, a).pushed == s.pushed
    ensures s.removed <= RegionSlots.Step(u, s, a).removed
    ensures forall k :: |s.removed| <= k < |RegionSlots.Step(u, s, a).removed| ==>
      RegionSlots.Step(u, s, a).removed[k].Claimed?
  {
  }

  /** A later state of the table and of the calls under way. */
  ghost predicate Later(s: System, t: System) {
    TableSound(t.router) && t.dispatching <= t.router.known.Keys &&
    (forall id :: id in s.router.known ==> id in t.router.known && t.router.known[id] == s.router.known[id]) &&
    (forall id :: id in s.router.known && id in t.router.pending ==> id in s.router.pending) &&
    (forall id :: id in s.router.known && id in t.dispatching ==> id in s.dispatching)
  }

  lemma StaysPlaced(s: System, t: System, r: Region)
    requires Placed(s) && Later(s, t) && r in s.slots && r in t.slots && t.slots[r] == s.slots[r]
    ensures Conserved(t.slots[r]) && History(t, r, t.slots[r].pushed) && Evictions(t, t.slots[r].removed)
  {
  }

  lemma {:induction false} NextPlaced(u: Usage, s: System, a: Task)
    requires Placed(s)
    ensures Placed(Next(u, s, a))
  {
    if Ready(s, a) {
      match a {
        case Registers(r, c) => TablePlaced(u, s, a);
        case InTable(entry) => TablePlaced(u, s, a);
        case Queues(id) => QueuesPlaced(u, s, id);
        case InRegion(r, act) => RegionPlaced(u, s, r, act);
      }
    }
  }

  /** A step of the table alone: no check is forgotten as known, no evicted check comes back. */
  lemma {:induction false} TablePlaced(u: Usage, s: System, a: Task)
    requires Placed(s) && Ready(s, a) && (a.Registers? || a.InTable?)
    ensures Placed(Next(u, s, a))
  {
    var t := Next(u, s, a);
    assert t.slots == s.slots;
    StepGrows(s.router, TablePart(s, a).value);
    assert t.router == Routing.Step(s.router, TablePart(s, a).value);
    assert Later(s, t) by {
      if a.Registers? {
        assert t.router == Register(s.router, a.region, a.check);
      }
    }
    forall r | r in t.slots ensures
      Conserved(t.slots[r]) && History(t, r, t.slots[r].pushed) && Evictions(t, t.slots[r].removed)
    {
      StaysPlaced(s, t, r);
    }
  }

  lemma {:induction false} RegionPlaced(u: Usage, s: System, region: Region, act: RegionSlots.Action)
    requires Placed(s) && Ready(s, InRegion(region, act))
    ensures Placed(Next(u, s, InRegion(region, act)))
  {
    var slot := SlotOf(s, region);
    var t := Next(u, s, InRegion(region, act));
    var slot' := RegionSlots.Step(u, slot, act);
    assert t == s.(slots := s.slots[region := slot']);
    assert Checks([]) + [] == [];
    SlotStepKeeps(u, slot, act);
    StepConserves(u, slot, act);
    assert History(t, region, slot'.pushed) && Evictions(t, slot'.removed);
    forall r | r in t.slots && r != region ensures
      Conserved(t.slots[r]) && History(t, r, t.slots[r].pushed) && Evictions(t, t.slots[r].removed)
    {
      StaysPlaced(s, t, r);
    }
  }

  lemma {:induction false} QueuesPlaced(u: Usage, s: System, id: CheckId)
    requires Placed(s) && Ready(s, Queues(id))
    ensures Placed(Next(u, s, Queues(id)))
  {
    var (region, c) := s.router.known[id];
    var slot := SlotOf(s, region);
    var t := Next(u, s, Queues(id));
    var slot' := Push(slot, c);
    assert t.slots == s.slots[region := slot'] && t.dispatching == s.dispatching - {id};
    assert t.router.known == s.router.known;
    assert Later(s, t);
    assert Checks([]) + [] == [];
    StepConserves(u, slot, DoPush(c));
    assert Conserved(slot') by { assert slot' == RegionSlots.Step(u, slot, DoPush(c)); }
    PushHistory(s, t, region, id, slot);
    forall r | r in t.slots && r != region ensures
      Conserved(t.slots[r]) && History(t, r, t.slots[r].pushed) && Evictions(t, t.slots[r].removed)
    {
      StaysPlaced(s, t, r);
    }
  }

  lemma {:induction false} PushHistory(s: System, t: System, region: Region, id: CheckId, slot: Slot)
    requires TableSound(s.router) && Conserved(slot)
    requires History(s, region, slot.pushed) && Evictions(s, slot.removed)
    requires id in s.dispatching && id in s.router.known && s.router.known[id].0 == region
    requires t.router.known == s.router.known && t.dispatching == s.dispatching - {id}
    requires t.router.pending ==
      if |slot.queue| >= MAX_QUEUE then s.router.pending - {slot.queue[0].id} else s.router.pending
    ensures History(t, region, Push(slot, s.router.known[id].1).pushed)
    ensures Evictions(t, Push(slot, s.router.known[id].1).removed)
  {
    if |slot.queue| >= MAX_QUEUE {
      assert slot.pushed[|slot.removed|] == slot.queue[0];
    }
  }

  lemma {:induction false} PlacedAlong(u: Usage, s: System, tasks: seq<Task>)
    requires Placed(s)
    ensures Placed(Play(u, s, tasks))
    decreases |tasks|
  {
    if tasks != [] {
      NextPlaced(u, s, tasks[0]);
      PlacedAlong(u, Next(u, s, tasks[0]), tasks[1..]);
    }
  }

  /** Where a queued check is now: still in its queue, or taken off it by a claim or an eviction. */
  datatype Place = Waiting(index: nat) | Gone(index: nat)

  ghost predicate IsAt(s: Slot, id: CheckId, p: Place) {
    match p
    case Waiting(k) => k < |s.queue| && s.queue[k].id == id
    case Gone(k) => k < |s.removed| && s.removed[k].check.id == id
  }

  /** The position in dispatch order that a place stands for. */
  function Rank(s: Slot, p: Place): nat {
    match p
    case Waiting(k) => |s.removed| + k
    case Gone(k) => k
  }

  lemma RankOf(s: Slot, id: CheckId, p: Place)
    requires Conserved(s) && IsAt(s, id, p)
    ensures Rank(s, p) < |s.pushed| && s.pushed[Rank(s, p)].id == id
  {
  }

  /** In every reachable state each queued check is in exactly one place of exactly one region: one
      position of the queue, or one removal, that is, claimed once by one holder or evicted once; and
      an evicted check has no table entry. */
  lemma {:induction false} EachCheckInOnePlace(u: Usage, tasks: seq<Task>, r: Region, n: nat)
    requires r in Play(u, IDLE, tasks).slots && n < |Play(u, IDLE, tasks).slots[r].pushed|
    ensures
      var s := Play(u, IDLE, tasks);
      var id := s.slots[r].pushed[n].id;
      (exists p :: IsAt(s.slots[r], id, p)) &&
      (forall r', p, q :: r' in s.slots && IsAt(s.slots[r], id, p) && IsAt(s.slots[r'], id, q) ==> r' == r && p == q) &&
      (forall p :: IsAt(s.slots[r], id, p) && p.Gone? && s.slots[r].removed[p.index].Evicted? ==>
         id !in s.router.pending)
  {
    PlacedAlong(u, IDLE, tasks);
    var s := Play(u, IDLE, tasks);
    var slot := s.slots[r];
    var id := slot.pushed[n].id;
    var here := if n < |slot.removed| then Gone(n) else Waiting(n - |slot.removed|);
    assert IsAt(slot, id, here);
    forall r', p, q | r' in s.slots && IsAt(slot, id, p) && IsAt(s.slots[r'], id, q) ensures r' == r && p == q {
      RankOf(slot, id, p);
      RankOf(s.slots[r'], id, q);
    }
  }
}
