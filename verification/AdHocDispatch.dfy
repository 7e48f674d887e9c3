/** The dispatcher's objects. Each method is one atomic section of the source, proved to be the step
    of the system it stands for; `ClaimChecks`, `DispatchCheck`, `Abandon` and `CompleteCheck` put the
    sections of one call together. */
module AdHocDispatch {
  import opened Common
  import opened RegionSlots
  import opened Routing
  import D = Dispatch

  class RegionSlot {
    var queue: seq<Check>
    var permit: bool
    var asleep: seq<HolderId>
    var holders: nat
    ghost var claims: map<HolderId, Claim>
    ghost var unnotified: nat
    ghost var pushed: seq<Check>
    ghost var removed: seq<Removal>

    ghost function State(): Slot
      reads this
    {
      Slot(queue, permit, asleep, holders, claims, unnotified, pushed, removed)
    }

    constructor ()
      ensures State() == FRESH
    {
      queue, permit, asleep, holders := [], false, [], 0;
      claims, unnotified, pushed, removed := map[], 0, [], [];
    }

    method AddHolder(h: HolderId, limit: nat)
      modifies this
      ensures State() == Enter(old(State()), h, limit)
    {
      holders := holders + 1;
      claims := claims[h := Claim(limit, Looking)];
    }

    /** Empty when the queue is. */
    method Drain(h: HolderId, limit: nat) returns (batch: seq<Check>)
      requires Is(State(), h, Looking) && claims[h].limit == limit
      modifies this
      ensures State() == Look(old(State()), h)
      ensures batch + queue == old(queue) && |batch| == Min(|old(queue)|, Max(limit, 1))
      ensures removed == old(removed) + Taken(h, batch)
    {
      if queue != [] {
        var n := Min(|queue|, Max(limit, 1));
        batch := queue[..n];
        queue := queue[n..];
        removed := removed + Taken(h, batch);
        claims := claims[h := Claim(limit, Leaving)];
      } else {
        batch := [];
        claims := claims[h := Claim(limit, FoundEmpty)];
      }
    }

    method NotifyOne()
      modifies this
      ensures State() == WakeNext(old(State()))
      ensures if old(asleep) == [] then permit && asleep == [] else permit == old(permit) && asleep == old(asleep)[1..]
    {
      if asleep == [] {
        permit := true;
      } else {
        var h := asleep[0];
        asleep := asleep[1..];
        if h in claims {
          claims := claims[h := claims[h].(phase := Woken)];
        }
      }
    }

    method PollNotified(h: HolderId) returns (ready: bool)
      requires h in claims
      modifies this
      ensures State() == Poll(old(State()), h) && ready == old(permit)
      ensures !permit && asleep == if ready then old(asleep) else old(asleep) + [h]
    {
      ready := permit;
      if permit {
        permit := false;
        claims := claims[h := claims[h].(phase := Looking)];
      } else {
        asleep := asleep + [h];
        claims := claims[h := claims[h].(phase := Asleep)];
      }
    }

    /** `phase` is the state of the notification future being dropped. */
    method DropNotified(h: HolderId, phase: Phase)
      requires Is(State(), h, phase)
      modifies this
      ensures State() == GiveUp(old(State()), h)
    {
      claims := claims[h := claims[h].(phase := Leaving)];
      if phase == Asleep {
        asleep := Without(asleep, h);
      } else if phase == Woken {
        NotifyOne();
      }
    }

    /** Dropping the holder guard. */
    method RemoveHolder(h: HolderId)
      requires holders > 0
      modifies this
      ensures State() == Depart(old(State()), h)
    {
      holders := holders - 1;
      claims := claims - {h};
    }

    method PushEvicting(check: Check) returns (evicted: Option<Check>)
      modifies this
      ensures State() == Push(old(State()), check)
      ensures evicted == if |old(queue)| >= MAX_QUEUE then Some(old(queue)[0]) else None
      ensures queue == (if |old(queue)| >= 256 then old(queue)[1..] else old(queue)) + [check]
    {
      evicted := None;
      if |queue| >= MAX_QUEUE {
        evicted := Some(queue[0]);
        removed := removed + [Evicted(queue[0])];
        queue := queue[1..];
      }
      queue := queue + [check];
      pushed := pushed + [check];
      unnotified := unnotified + 1;
    }

    lemma {:induction false} LastWaiterGone(q: seq<HolderId>, h: HolderId)
      requires h !in q
      ensures Without(q + [h], h) == q
    {
      if q == [] {
        assert (q + [h])[1..] == [];
      } else {
        assert (q + [h])[1..] == q[1..] + [h];
        LastWaiterGone(q[1..], h);
      }
    }

    /** The wait of a `claim` that nobody notifies: a stored permit ends it, else it times out. */
    method Wait(h: HolderId) returns (again: bool)
      requires Is(State(), h, FoundEmpty) && h !in asleep
      modifies this
      ensures again == old(permit)
      ensures State() == At(old(State()), h, if again then Looking else Leaving).(permit := false)
    {
      again := PollNotified(h);
      if !again {
        LastWaiterGone(old(asleep), h);
        DropNotified(h, Asleep);
      }
    }

    /** A whole `claim` that nothing interrupts: the oldest checks of the queue at once, up to the limit;
        on an empty queue a stored permit buys one more look, and then the hold times out. It leaves no
        trace among the holders and the waiters. */
    method ClaimChecks(h: HolderId, limit: nat) returns (batch: seq<Check>)
      requires h !in claims && h !in asleep
      modifies this
      ensures batch + queue == old(queue) && |batch| == Min(|old(queue)|, Max(limit, 1))
      ensures removed == old(removed) + Taken(h, batch) && pushed == old(pushed)
      ensures permit == (old(permit) && old(queue) != [])
      ensures holders == old(holders) && claims == old(claims) && asleep == old(asleep)
      ensures unnotified == old(unnotified)
    {
      AddHolder(h, limit);
      while true
        invariant State() == Enter(old(State()), h, limit).(permit := permit)
        invariant permit == old(permit) || (old(queue) == [] && !permit)
        decreases permit
      {
        batch := Drain(h, limit);
        if batch != [] {
          break;
        }
        assert old(removed) + Taken(h, batch) == old(removed);
        var again := Wait(h);
        if !again {
          break;
        }
      }
      RemoveHolder(h);
    }

    method NotifyPushed()
      requires unnotified > 0
      modifies this
      ensures State() == Notify(old(State()))
    {
      unnotified := unnotified - 1;
      NotifyOne();
    }
  }

  /** The state after the queue section of a `dispatch`. */
  ghost function Queued(s: D.System, region: Region, check: Check): D.System {
    var slot := D.SlotOf(s, region);
    var table := if |slot.queue| >= MAX_QUEUE then Forget(s.router, slot.queue[0].id) else s.router;
    D.System(s.slots[region := Push(slot, check)], s.dispatching - {check.id}, table)
  }

  ghost function Registered(s: D.System, region: Region, check: Check): D.System {
    D.System(s.slots, s.dispatching + {check.id}, Register(s.router, region, check))
  }

  ghost function Notified(s: D.System, region: Region): D.System {
    s.(slots := s.slots[region := Notify(D.SlotOf(s, region))])
  }

  /** The three sections of `dispatch` are the three steps of the system. */
  lemma DispatchSteps(u: Usage, s: D.System, region: Region, check: Check)
    requires check.id !in s.router.known
    ensures
      var registered := D.Next(u, s, D.Registers(region, check));
      var queued := D.Next(u, registered, D.Queues(check.id));
      registered == Registered(s, region, check) &&
      queued == Queued(registered, region, check) &&
      D.Next(u, queued, D.InRegion(region, DoNotify)) == Notified(queued, region)
  {
  }

  class AdHocDispatch {
    var regions: map<Region, RegionSlot>
    var pending: map<CheckId, Meta>
    var senders: map<CheckId, Sender>
    ghost var known: map<CheckId, (Region, Check)>
    ghost var dispatching: set<CheckId>
    ghost var abandoning: multiset<CheckId>
    ghost var completing: map<CheckId, Report>
    ghost var completions: seq<Completion>

    /** Regions do not share a slot, and every check has a sender cell. */
    ghost predicate Valid()
      reads this
    {
      (forall r, q :: r in regions && q in regions && r != q ==> regions[r] != regions[q]) &&
      senders.Keys == known.Keys && dispatching <= known.Keys
    }

    ghost function Table(): Router
      reads this
    {
      Router(pending, senders, known, abandoning, completing, completions)
    }

    ghost function State(): D.System
      reads this, regions.Values
    {
      D.System(map r | r in regions :: regions[r].State(), dispatching, Table())
    }

    constructor ()
      ensures Valid() && State() == D.IDLE && regions == map[]
    {
      regions, pending, senders := map[], map[], map[];
      known, dispatching, abandoning, completing, completions := map[], {}, multiset{}, map[], [];
    }

    /** Only claims in flight make a region live. */
    method RegionLive(region: Region) returns (live: bool)
      ensures live <==> D.SlotOf(State(), region).holders > 0
      ensures Counted(D.SlotOf(State(), region)) ==> (live <==> D.SlotOf(State(), region).claims != map[])
    {
      live := region in regions && regions[region].holders > 0;
      ghost var slot := D.SlotOf(State(), region);
      assert |slot.claims| == 0 <==> slot.claims == map[];
    }

    /** The region's slot, made on first use. */
    method SlotFor(region: Region) returns (slot: RegionSlot)
      requires Valid()
      modifies this
      ensures Valid() && region in regions && slot == regions[region]
      ensures State() == old(State()).(slots := old(State()).slots[region := D.SlotOf(old(State()), region)])
      ensures forall r :: r in regions && r !in old(regions) ==> fresh(regions[r])
      ensures forall r :: r in old(regions) ==> r in regions && regions[r] == old(regions)[r]
    {
      ghost var was := State();
      if region in regions {
        slot := regions[region];
      } else {
        slot := new RegionSlot();
        regions := regions[region := slot];
      }
      SlotsAre(was.slots[region := D.SlotOf(was, region)]);
    }

    /** First section of `dispatch`; the id is new. */
    method RegisterWaiter(region: Region, check: Check)
      requires Valid() && check.id !in known
      modifies this
      ensures Valid() && regions == old(regions)
      ensures State() == Registered(old(State()), region, check)
      ensures check.id in dispatching && known[check.id] == (region, check)
      ensures check.id in pending && pending[check.id].kind == check.kind
      ensures pending[check.id].org == check.org && pending[check.id].target == check.target
      ensures check.id in senders && senders[check.id] == Armed
    {
      pending := pending[check.id := MetaOf(check)];
      senders := senders[check.id := Armed];
      known := known[check.id := (region, check)];
      dispatching := dispatching + {check.id};
    }

    /** Second section of `dispatch`, on the region's slot: evict at the cap, queue the check. */
    method Enqueue(region: Region, check: Check)
      requires Valid() && check.id in dispatching && known[check.id] == (region, check)
      requires region in regions
      modifies this, regions[region]
      ensures Valid() && regions == old(regions) && regions[region].unnotified > 0
      ensures State() == Queued(old(State()), region, check)
    {
      ghost var was := State();
      var evicted := regions[region].PushEvicting(check);
      if evicted.Some? {
        pending := pending - {evicted.value.id};
      }
      dispatching := dispatching - {check.id};
      SlotsAre(was.slots[region := Push(was.slots[region], check)]);
    }

    lemma SlotsAre(slots: map<Region, Slot>)
      requires slots.Keys == regions.Keys
      requires forall r :: r in regions ==> regions[r].State() == slots[r]
      ensures State().slots == slots
    {
    }

    /** Last section of `dispatch`. */
    method NotifyRegion(region: Region)
      requires Valid() && region in regions && regions[region].unnotified > 0
      modifies regions[region]
      ensures Valid() && State() == Notified(old(State()), region)
    {
      ghost var was := State();
      regions[region].NotifyPushed();
      SlotsAre(was.slots[region := Notify(was.slots[region])]);
    }

    /** A whole `dispatch` that nothing interrupts. */
    method DispatchCheck(region: Region, check: Check)
      requires Valid() && check.id !in known
      modifies this, regions.Values
      ensures Valid()
      ensures State() == Notified(Queued(Registered(old(State()), region, check), region, check), region)
    {
      RegisterWaiter(region, check);
      ghost var registered := State();
      var slot := SlotFor(region);
      assert Queued(State(), region, check) == Queued(registered, region, check);
      Enqueue(region, check);
      NotifyRegion(region);
    }

    /** `abandon`: keep the table entry, drop the sender if the entry is still there. */
    method Abandon(id: CheckId)
      requires Valid() && forall i :: i in pending ==> i in known
      modifies this
      ensures Valid() && regions == old(regions) && pending == old(pending)
      ensures Table() ==
        if id in pending then TakeAbandoned(Routing.Abandon(old(Table()), id), id) else old(Table())
    {
      if id in pending {
        abandoning := abandoning + multiset{id};
        if senders[id] == Armed {
          senders := senders[id := Dropped];
        }
        abandoning := abandoning - multiset{id};
      }
    }

    /** `complete`: the entry goes to one caller, who delivers if the sender is still in place. */
    method CompleteCheck(id: CheckId, report: Report) returns (meta: Option<Meta>)
      requires Valid() && forall i :: i in pending ==> i in known
      modifies this
      ensures Valid() && regions == old(regions)
      ensures meta == if id in old(pending) then Some(old(pending)[id]) else None
      ensures Table() ==
        if id in old(pending)
        then Deliver(Routing.Complete(old(Table()), id, report), id)
        else old(Table())
    {
      if id !in pending {
        return None;
      }
      meta := Some(pending[id]);
      pending := pending - {id};
      completing := completing[id := report];
      completions := completions + [Completion(id, report, meta.value)];
      if senders[id] == Armed {
        senders := senders[id := Sent(report)];
      }
      completing := completing - {id};
    }
  }
}
