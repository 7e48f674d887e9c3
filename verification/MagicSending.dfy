/** The other two promises of the token table: racing senders never retire each other, and mails to
    one address keep their distance. */
module MagicSending {
  import opened Common
  import opened MagicLinks

  // ----- Superseding -----

  /** A row once superseded is superseded by a strictly newer row of the same address, and carries a nonce. */
  ghost predicate GaveWay(s: State, id: Id) {
    id in s.retiredBy && id in s.created &&
    var k := s.retiredBy[id];
    k in s.created && s.created[k].email == s.created[id].email &&
    s.created[id].nonceHash.Some? && Older(s.created[id], id, s.created[k], k)
  }

  ghost predicate Retiring(s: State) {
    RowsKnown(s) &&
    (forall id :: id in s.rows && s.rows[id].supersededAt.Some? ==> id in s.retiredBy) &&
    (forall id :: id in s.retiredBy ==> GaveWay(s, id))
  }

  lemma {:induction false} StepRetiring(x: Setup, s: State, a: Action)
    requires Retiring(s)
    ensures Retiring(Step(x, s, a))
  {
    match a {
      case Redeems(b) => RedeemFrame(x, s, b);
      case Sends(b) => SendFrame(x, s, b);
      case Keeps(b) => KeepRetiring(s, b);
    }
  }

  lemma {:induction false} KeepRetiring(s: State, a: Keeping)
    requires Retiring(s)
    ensures Retiring(KeepStep(s, a))
  {
    KeepFrame(s, a);
    var t := KeepStep(s, a);
    if CanKeep(s, a) && a.Retire? {
      forall id | id in t.retiredBy ensures GaveWay(t, id) {
        if id in s.rows && Retires(s.rows, a.email, a.keep, id) {
          assert t.retiredBy[id] == a.keep;
        } else {
          assert GaveWay(s, id);
        }
      }
    } else {
      assert t.retiredBy == s.retiredBy;
      forall id | id in t.retiredBy ensures GaveWay(t, id) {
        assert GaveWay(s, id);
      }
    }
  }

  lemma {:induction false} RetiringAlong(x: Setup, s: State, acts: seq<Action>)
    requires Retiring(s)
    ensures Retiring(Run(x, s, acts))
    decreases |acts|
  {
    if acts != [] {
      StepRetiring(x, s, acts[0]);
      RetiringAlong(x, Step(x, s, acts[0]), acts[1..]);
    }
  }

  /** No row ever created for the address is newer. */
  ghost predicate Greatest(s: State, id: Id) {
    id in s.created && forall other :: other in s.created && s.created[other].email == s.created[id].email ==>
      !Older(s.created[id], id, s.created[other], other)
  }

  /** Racing senders never retire each other: in every reachable state the newest row of an address was
      never superseded, nor was any row without a nonce, whatever supersede statements ran in whatever
      order; every superseded row gave way to a strictly newer one. */
  lemma {:induction false} NewestNeverRetired(x: Setup, acts: seq<Action>, id: Id)
    ensures
      var s := Run(x, EMPTY, acts);
      (id in s.created && (Greatest(s, id) || s.created[id].nonceHash.None?) ==>
         id !in s.retiredBy && (id in s.rows ==> s.rows[id].supersededAt.None?)) &&
      (id in s.rows && s.rows[id].supersededAt.Some? ==> GaveWay(s, id))
  {
    RetiringAlong(x, EMPTY, acts);
    var s := Run(x, EMPTY, acts);
    if id in s.retiredBy {
      assert GaveWay(s, id);
    }
  }

  /** And the race settles: once the newest sender's statement has run, every other unused row of the
      address that came from the form is superseded. */
  lemma NewestSettles(rows: Rows, email: Email, keep: Id, now: Instant, id: Id)
    requires keep in rows && rows[keep].info.email == email
    requires forall other :: other in rows && rows[other].info.email == email && other != keep ==>
      Older(rows[other].info, other, rows[keep].info, keep)
    requires id in rows && rows[id].info.email == email && rows[id].info.nonceHash.Some? && rows[id].usedAt.None?
    ensures id in Supersede(rows, email, keep, now)
    ensures Supersede(rows, email, keep, now)[id].supersededAt.None? <==>
      id == keep && rows[keep].supersededAt.None?
  {
  }

  // ----- The send window -----

  /** A mail of the row is marked sent. */
  predicate Sent(s: State, id: Id) { id in s.rows && s.rows[id].sentAt.Some? }

  predicate Together(s: State, a: Id, b: Id) {
    a != b && Sent(s, a) && Sent(s, b) && s.rows[a].info.email == s.rows[b].info.email
  }

  /** The stamp of `a` came before that of `b`. */
  predicate Before(s: State, a: Id, b: Id) {
    a in s.log.nth && b in s.log.nth && s.log.nth[a] < s.log.nth[b]
  }

  predicate Won(c: Send) { c.stage.Stamped? && c.stage.won }

  /** Every stamp has its own place in the order. */
  ghost predicate Ordered(s: State) {
    (forall id :: Sent(s, id) ==> id in s.log.nth && s.log.nth[id] < s.log.count) &&
    (forall a, b :: Sent(s, a) && Sent(s, b) && a != b ==> s.log.nth[a] != s.log.nth[b]) &&
    (forall t :: t in s.sends && Won(s.sends[t]) ==>
       s.sends[t].stage.nth < s.log.count &&
       forall id :: Sent(s, id) ==> s.log.nth[id] != s.sends[t].stage.nth) &&
    (forall t, u :: t in s.sends && u in s.sends && t != u && Won(s.sends[t]) && Won(s.sends[u]) ==>
       s.sends[t].stage.nth != s.sends[u].stage.nth)
  }

  /** A stamp that asked for a window came a full window after every earlier one of its address. */
  ghost predicate Spaced(s: State, gap: nat) {
    forall a, b :: Together(s, a, b) && Before(s, a, b) && b !in s.log.unthrottled ==>
      s.rows[a].sentAt.value <= s.rows[b].sentAt.value - gap
  }

  /** What the won update saw: earlier stamps of its address are a window back, and none but ones without a
      window can come between it and its commit. */
  ghost predicate ClearWindow(s: State, c: Send)
    requires c.stage.Stamped?
  {
    forall id :: Sent(s, id) && s.rows[id].info.email == c.email && id in s.log.nth ==>
      if s.log.nth[id] < c.stage.nth then s.rows[id].sentAt.value <= c.started - Micros(c.window)
      else id in s.log.unthrottled
  }

  /** A transaction past its update holds the lock of its address, and what it saw still holds. */
  ghost predicate Serialised(x: Setup, s: State) {
    forall t :: t in s.sends ==>
      var c := s.sends[t];
      c.window >= x.window && c.id in s.created && s.created[c.id].email == c.email &&
      (c.stage != Began ==> Holds(s, t)) &&
      (Won(c) ==> ClearWindow(s, c))
  }

  ghost predicate SendsSound(x: Setup, s: State) {
    RowsKnown(s) && Ordered(s) && Serialised(x, s) && Spaced(s, Micros(x.window))
  }

  /** Every mail marked sent was so before, with the same stamp; the transactions in flight are the same. */
  ghost predicate SentShrinks(a: State, b: State) {
    b.sends == a.sends && b.locks == a.locks && b.log.count == a.log.count && b.log.nth == a.log.nth &&
    (forall id :: id in a.created ==> id in b.created && b.created[id] == a.created[id]) &&
    (forall id :: Sent(b, id) ==>
       Sent(a, id) && b.rows[id].sentAt == a.rows[id].sentAt && b.rows[id].info == a.rows[id].info &&
       (id in b.log.unthrottled <==> id in a.log.unthrottled))
  }

  lemma {:induction false} ShrinkingStaysSending(x: Setup, s: State, t: State)
    requires SendsSound(x, s) && RowsKnown(t) && SentShrinks(s, t)
    ensures SendsSound(x, t)
  {
    forall k | k in t.sends && Won(t.sends[k]) ensures ClearWindow(t, t.sends[k]) {
      assert ClearWindow(s, s.sends[k]);
    }
    forall k | k in t.sends && t.sends[k].stage != Began ensures Holds(t, k) {
      assert Holds(s, k);
    }
    forall a: Id, b: Id | Together(t, a, b) && Before(t, a, b) && b !in t.log.unthrottled
      ensures t.rows[a].sentAt.value <= t.rows[b].sentAt.value - Micros(x.window)
    {
      assert Together(s, a, b) && Before(s, a, b);
    }
  }

  /** The advisory lock: only one transaction of an address is past it. */
  lemma HoldsAlone(s: State, t: TaskId, u: TaskId)
    requires Holds(s, t) && Holds(s, u) && t != u
    ensures s.sends[t].email != s.sends[u].email
  {
  }

  lemma WiderWindow(x: Setup, window: nat)
    requires window >= x.window
    ensures Micros(window) >= Micros(x.window)
  {
  }

  // ----- Committing -----

  /** Committing a won stamp keeps every distance: the row it stamps is a full window after every stamp that
      came before its update, and none with a window came since. */
  lemma {:induction false} CommitSpaces(x: Setup, s: State, t: TaskId)
    requires SendsSound(x, s) && t in s.sends && Won(s.sends[t])
    ensures Spaced(Committed(s, s.sends[t]), Micros(x.window))
  {
    var c := s.sends[t];
    var n := Committed(s, c);
    WiderWindow(x, c.window);
    forall a: Id, b: Id | Together(n, a, b) && Before(n, a, b) && b !in n.log.unthrottled
      ensures n.rows[a].sentAt.value <= n.rows[b].sentAt.value - Micros(x.window)
    {
      if a != c.id && b != c.id {
        assert Together(s, a, b) && Before(s, a, b);
      } else {
        assert Sent(s, if a == c.id then b else a);
      }
    }
  }

  lemma {:induction false} CommitOrders(s: State, t: TaskId)
    requires Ordered(s) && t in s.sends && Won(s.sends[t])
    ensures Ordered(Unlocked(Committed(s, s.sends[t]), t))
  {
    var c := s.sends[t];
    var n := Unlocked(Committed(s, c), t);
    forall id | Sent(n, id) && id != c.id ensures Sent(s, id) && n.log.nth[id] == s.log.nth[id] {
    }
  }

  /** A won commit leaves the windows of other addresses as they were. */
  lemma {:induction false} CommitLeavesOthers(s: State, c: Send, d: Send)
    requires RowsKnown(s) && Won(c) && Won(d) && ClearWindow(s, d)
    requires c.id in s.created && s.created[c.id].email == c.email != d.email
    ensures ClearWindow(Committed(s, c), d)
  {
    var n := Committed(s, c);
    forall id | Sent(n, id) && n.rows[id].info.email == d.email ensures id != c.id && Sent(s, id) {
    }
  }

  /** The end of a transaction frees its own lock only. */
  lemma {:induction false} UnlockedHolds(s: State, t: TaskId, k: TaskId)
    requires t in s.sends && k in s.sends && k != t && Holds(s, k)
    ensures k in Unlocked(s, t).sends && Holds(Unlocked(s, t), k)
  {
  }

  lemma {:induction false} CommitSerialises(x: Setup, s: State, t: TaskId)
    requires RowsKnown(s) && Serialised(x, s) && t in s.sends && Won(s.sends[t])
    ensures Serialised(x, Unlocked(Committed(s, s.sends[t]), t))
  {
    var c := s.sends[t];
    var m := Committed(s, c);
    var n := Unlocked(m, t);
    assert Holds(s, t);
    forall k | k in n.sends && n.sends[k].stage != Began ensures Holds(n, k) {
      assert Holds(s, k) && Holds(m, k);
      UnlockedHolds(m, t, k);
    }
    forall k | k in n.sends && Won(n.sends[k]) ensures ClearWindow(n, n.sends[k]) {
      assert Holds(s, k);
      HoldsAlone(s, t, k);
      CommitLeavesOthers(s, c, n.sends[k]);
      SameWindow(m, n, n.sends[k]);
    }
  }

  lemma {:induction false} SameWindow(s: State, n: State, c: Send)
    requires n.rows == s.rows && n.log == s.log && c.stage.Stamped? && ClearWindow(s, c)
    ensures ClearWindow(n, c)
  {
    assert forall id :: Sent(n, id) <==> Sent(s, id);
  }

  lemma {:induction false} CommitSends(x: Setup, s: State, t: TaskId)
    requires SendsSound(x, s) && t in s.sends && s.sends[t].stage.Stamped?
    ensures SendsSound(x, SendStep(x, s, Commit(t)))
  {
    StepRows(x, s, Sends(Commit(t)));
    if s.sends[t].stage.won {
      var m := Committed(s, s.sends[t]);
      CommitSpaces(x, s, t);
      CommitOrders(s, t);
      CommitSerialises(x, s, t);
      StaysSpaced(x, m, Unlocked(m, t));
    } else {
      LocksSending(x, s, Abort(t));
    }
  }

  // ----- The other statements of a claim -----

  /** A won update is a full window after every mail of its address marked sent before it, with or without
      a window. */
  lemma {:induction false} WonSeesAll(x: Setup, s: State, t: TaskId, id: Id)
    requires CanSend(x, s, Stamp(t)) && Won(SendStep(x, s, Stamp(t)).sends[t])
    requires Sent(s, id) && s.rows[id].info.email == s.sends[t].email
    ensures s.rows[id].sentAt.value <= s.sends[t].started - Micros(s.sends[t].window)
  {
  }

  lemma {:induction false} StampSends(x: Setup, s: State, t: TaskId)
    requires SendsSound(x, s) && CanSend(x, s, Stamp(t))
    ensures SendsSound(x, SendStep(x, s, Stamp(t)))
  {
    var n := SendStep(x, s, Stamp(t));
    assert n.rows == s.rows && n.log == s.log.(count := s.log.count + 1);
    forall k | k in n.sends && n.sends[k].stage != Began ensures Holds(n, k) {
      assert Holds(s, k);
    }
    forall k | k in n.sends && Won(n.sends[k]) ensures ClearWindow(n, n.sends[k]) {
      if k == t {
        forall id | Sent(n, id) && n.rows[id].info.email == s.sends[t].email
          ensures s.rows[id].sentAt.value <= s.sends[t].started - Micros(s.sends[t].window)
        {
          assert Sent(s, id);
          WonSeesAll(x, s, t, id);
        }
      } else {
        assert ClearWindow(s, n.sends[k]);
      }
    }
    StaysSpaced(x, s, n);
  }

  lemma {:induction false} StaysSpaced(x: Setup, s: State, n: State)
    requires Spaced(s, Micros(x.window)) && n.rows == s.rows
    requires n.log.nth == s.log.nth && n.log.unthrottled == s.log.unthrottled
    ensures Spaced(n, Micros(x.window))
  {
    forall a, b ensures Together(n, a, b) == Together(s, a, b) && Before(n, a, b) == Before(s, a, b) {
    }
  }

  /** Beginning, locking and aborting write neither a row nor the log, and win nothing. */
  lemma {:induction false} LocksFrame(x: Setup, s: State, a: Sending)
    requires CanSend(x, s, a) && (a.Begin? || a.Lock? || a.Abort?)
    ensures
      var n := SendStep(x, s, a);
      n.rows == s.rows && n.created == s.created && n.log == s.log &&
      (forall k :: k in n.sends && Won(n.sends[k]) ==> k in s.sends && n.sends[k] == s.sends[k])
  {
  }

  lemma {:induction false} LocksHeld(x: Setup, s: State, a: Sending)
    requires Serialised(x, s) && CanSend(x, s, a) && (a.Begin? || a.Lock? || a.Abort?)
    ensures
      var n := SendStep(x, s, a);
      forall k :: k in n.sends ==>
        var c := n.sends[k];
        c.window >= x.window && c.id in s.created && s.created[c.id].email == c.email &&
        (c.stage != Began ==> Holds(n, k))
  {
    var n := SendStep(x, s, a);
    forall k | k in n.sends && n.sends[k].stage != Began ensures Holds(n, k) {
      if k in s.sends && s.sends[k].stage != Began {
        assert Holds(s, k);
      }
    }
  }

  lemma {:induction false} LocksSending(x: Setup, s: State, a: Sending)
    requires SendsSound(x, s) && CanSend(x, s, a) && (a.Begin? || a.Lock? || a.Abort?)
    ensures SendsSound(x, SendStep(x, s, a))
  {
    var n := SendStep(x, s, a);
    LocksFrame(x, s, a);
    LocksHeld(x, s, a);
    UnwrittenStays(x, s, n);
  }

  lemma {:induction false} UnwrittenStays(x: Setup, s: State, n: State)
    requires SendsSound(x, s) && n.rows == s.rows && n.created == s.created && n.log == s.log
    requires forall k :: k in n.sends && Won(n.sends[k]) ==> k in s.sends && n.sends[k] == s.sends[k]
    requires forall k :: k in n.sends ==>
      var c := n.sends[k];
      c.window >= x.window && c.id in s.created && s.created[c.id].email == c.email &&
      (c.stage != Began ==> Holds(n, k))
    ensures SendsSound(x, n)
  {
    assert forall id :: Sent(n, id) <==> Sent(s, id);
    assert Ordered(n);
    forall k | k in n.sends && Won(n.sends[k]) ensures ClearWindow(n, n.sends[k]) {
      SameWindow(s, n, n.sends[k]);
    }
    StaysSpaced(x, s, n);
  }

  /** A stamp without a window takes the latest place in the order, where nothing is promised of it. */
  lemma {:induction false} AlwaysSends(x: Setup, s: State, id: Id, now: Instant)
    requires SendsSound(x, s)
    ensures SendsSound(x, StampedAlways(s, id, now))
  {
    var n := StampedAlways(s, id, now);
    forall k | Sent(n, k) && k != id ensures Sent(s, k) && n.log.nth[k] == s.log.nth[k] {
    }
    forall k | k in n.sends && Won(n.sends[k]) ensures ClearWindow(n, n.sends[k]) {
      assert ClearWindow(s, s.sends[k]);
    }
    forall k | k in n.sends && n.sends[k].stage != Began ensures Holds(n, k) {
      assert Holds(s, k);
    }
    forall a: Id, b: Id | Together(n, a, b) && Before(n, a, b) && b !in n.log.unthrottled
      ensures n.rows[a].sentAt.value <= n.rows[b].sentAt.value - Micros(x.window)
    {
      assert a != id && b != id;
      assert Together(s, a, b) && Before(s, a, b);
    }
  }

  lemma {:induction false} SendSending(x: Setup, s: State, a: Sending)
    requires SendsSound(x, s)
    ensures SendsSound(x, SendStep(x, s, a))
  {
    SendFrame(x, s, a);
    if CanSend(x, s, a) {
      match a {
        case Commit(t) => CommitSends(x, s, t);
        case Stamp(t) => StampSends(x, s, t);
        case Release(id) =>
          StepRows(x, s, Sends(a));
          ShrinkingStaysSending(x, s, Released(s, id));
        case StampAlways(id, now) => AlwaysSends(x, s, id, now);
        case _ => LocksSending(x, s, a);
      }
    }
  }

  lemma {:induction false} StepSending(x: Setup, s: State, a: Action)
    requires SendsSound(x, s)
    ensures SendsSound(x, Step(x, s, a))
  {
    StepRows(x, s, a);
    match a {
      case Redeems(b) =>
        RedeemFrame(x, s, b);
        ShrinkingStaysSending(x, s, Step(x, s, a));
      case Keeps(b) =>
        KeepFrame(s, b);
        ShrinkingStaysSending(x, s, Step(x, s, a));
      case Sends(b) => SendSending(x, s, b);
    }
  }

  lemma {:induction false} SendingAlong(x: Setup, s: State, acts: seq<Action>)
    requires SendsSound(x, s)
    ensures SendsSound(x, Run(x, s, acts))
    decreases |acts|
  {
    if acts != [] {
      StepSending(x, s, acts[0]);
      SendingAlong(x, Step(x, s, acts[0]), acts[1..]);
    }
  }

  /** One mail per window: in every reachable state, of any two mails of one address the one stamped later
      is a full window after the other if its claim asked for a window at all: in whatever order the
      transactions got the lock, whatever their own clocks read when they began, after any release, and
      whether or not the earlier one asked for a window. */
  lemma {:induction false} MailsKeepTheirDistance(x: Setup, acts: seq<Action>, a: Id, b: Id)
    requires Together(Run(x, EMPTY, acts), a, b)
    ensures
      var s := Run(x, EMPTY, acts);
      (Before(s, a, b) || Before(s, b, a)) &&
      (Before(s, a, b) && b !in s.log.unthrottled ==>
         s.rows[a].sentAt.value <= s.rows[b].sentAt.value - Micros(x.window))
  {
    SendingAlong(x, EMPTY, acts);
  }

  /** And only then: in every reachable state with a mail sent, the next stamp without a window puts another
      mail of the address at any distance from it, before or after. */
  lemma {:induction false} UnthrottledAtAnyDistance(x: Setup, acts: seq<Action>, a: Id, b: Id, gap: int)
    requires Sent(Run(x, EMPTY, acts), a) && a != b && b in Run(x, EMPTY, acts).rows
    requires Run(x, EMPTY, acts).rows[a].info.email == Run(x, EMPTY, acts).rows[b].info.email
    ensures
      var s := Run(x, EMPTY, acts);
      var n := Step(x, s, Sends(StampAlways(b, s.rows[a].sentAt.value + gap)));
      Together(n, a, b) && Before(n, a, b) && n.rows[a] == s.rows[a] &&
      n.rows[b].sentAt.value == n.rows[a].sentAt.value + gap
  {
    OrderedAlong(x, acts);
    LastStep(x, Run(x, EMPTY, acts), a, b, gap);
  }

  lemma {:induction false} OrderedAlong(x: Setup, acts: seq<Action>)
    ensures Ordered(Run(x, EMPTY, acts))
  {
    SendingAlong(x, EMPTY, acts);
  }

  lemma {:induction false} LastStep(x: Setup, s: State, a: Id, b: Id, gap: int)
    requires Ordered(s) && Sent(s, a) && a != b && b in s.rows && s.rows[a].info.email == s.rows[b].info.email
    ensures
      var n := Step(x, s, Sends(StampAlways(b, s.rows[a].sentAt.value + gap)));
      Together(n, a, b) && Before(n, a, b) && n.rows[a] == s.rows[a] &&
      n.rows[b].sentAt.value == n.rows[a].sentAt.value + gap
  {
    LastPlace(s, a, b, s.rows[a].sentAt.value + gap);
  }

  lemma {:induction false} LastPlace(s: State, a: Id, b: Id, at: Instant)
    requires Ordered(s) && Sent(s, a) && a != b && b in s.rows && s.rows[a].info.email == s.rows[b].info.email
    ensures
      var n := StampedAlways(s, b, at);
      Together(n, a, b) && Before(n, a, b) && n.rows[a] == s.rows[a] && n.rows[b].sentAt == Some(at)
  {
  }

  /** A row's stamp asked for no window only if such a statement stamped that row. */
  lemma {:induction false} UnthrottledWereStamped(x: Setup, s: State, acts: seq<Action>, id: Id)
    requires forall now :: Sends(StampAlways(id, now)) !in acts
    ensures id in Run(x, s, acts).log.unthrottled ==> id in s.log.unthrottled
    decreases |acts|
  {
    if acts != [] {
      assert acts[0] in acts && forall a :: a in acts[1..] ==> a in acts;
      StepUnthrottled(x, s, acts[0], id);
      UnthrottledWereStamped(x, Step(x, s, acts[0]), acts[1..], id);
    }
  }

  lemma {:induction false} StepUnthrottled(x: Setup, s: State, a: Action, id: Id)
    requires a.Sends? && a.send.StampAlways? ==> a.send.id != id
    ensures id in Step(x, s, a).log.unthrottled ==> id in s.log.unthrottled
  {
    match a {
      case Redeems(b) => RedeemFrame(x, s, b);
      case Sends(b) => SendUnthrottled(x, s, b, id);
      case Keeps(b) => KeepUnthrottled(s, b);
    }
  }

  lemma {:induction false} KeepUnthrottled(s: State, a: Keeping)
    ensures KeepStep(s, a).log == s.log
  {
  }

  lemma {:induction false} SendUnthrottled(x: Setup, s: State, a: Sending, id: Id)
    requires a.StampAlways? ==> a.id != id
    ensures id in SendStep(x, s, a).log.unthrottled ==> id in s.log.unthrottled
  {
  }

  // ----- A run that collides -----

  lemma {:induction false} TwoBlank(x: Setup, now: Instant)
    ensures
      var s := Step(x, Step(x, EMPTY, Keeps(Create(1, Blank(now, "n")))), Keeps(Create(2, Blank(now, "n"))));
      var blank := Row(Blank(now, "n"), None, None, None, None, None);
      var rows: Rows := map[1 := blank, 2 := blank];
      s == EMPTY.(rows := rows, created := map[1 := Blank(now, "n"), 2 := Blank(now, "n")])
  {
  }

  /** A claim of a row nobody has mailed, up to its commit. */
  lemma {:induction false} FirstClaim(x: Setup, s: State, id: Id, now: Instant)
    requires s.sends == map[] && s.locks == map[] && id in s.rows && id in s.created
    requires s.created[id].email == s.rows[id].info.email && forall k :: k in s.rows ==> s.rows[k].sentAt.None?
    ensures
      var email, window := s.rows[id].info.email, x.window + 1;
      var locked := SendStep(x, SendStep(x, s, Begin(0, id, email, window, now)), Lock(0));
      var stamped := SendStep(x, locked, Stamp(0));
      stamped.rows == s.rows && stamped.log == s.log.(count := s.log.count + 1) &&
      stamped.sends == map[0 := Send(id, email, window, now, Stamped(true, s.log.count))]
  {
  }

  lemma {:induction false} RunSnoc(x: Setup, s: State, acts: seq<Action>, a: Action)
    ensures Run(x, s, acts + [a]) == Step(x, Run(x, s, acts), a)
    decreases |acts|
  {
    if acts == [] {
      assert (acts + [a])[1..] == [];
    } else {
      assert (acts + [a])[1..] == acts[1..] + [a];
      RunSnoc(x, Step(x, s, acts[0]), acts[1..], a);
    }
  }

  lemma {:induction false} CommitIs(x: Setup, s: State, t: TaskId)
    requires t in s.sends && Won(s.sends[t])
    ensures SendStep(x, s, Commit(t)).rows == SetSent(s.rows, s.sends[t].id, Some(s.sends[t].started))
    ensures SendStep(x, s, Commit(t)).log.unthrottled == s.log.unthrottled - {s.sends[t].id}
  {
  }

  /** A claim with a window won, and a second request of the address not yet mailed. */
  lemma {:induction false} ClaimedMail(x: Setup, now: Instant) returns (acts: seq<Action>)
    ensures
      var s := Run(x, EMPTY, acts);
      Sent(s, 1) && s.rows[1].sentAt == Some(now) && 1 !in s.log.unthrottled &&
      2 in s.rows && s.rows[2].sentAt.None? && s.rows[1].info.email == s.rows[2].info.email
  {
    var create1, create2 := Keeps(Create(1, Blank(now, "n"))), Keeps(Create(2, Blank(now, "n")));
    var begin := Sends(Begin(0, 1, "a", x.window + 1, now));
    var before := [create1, create2, begin, Sends(Lock(0)), Sends(Stamp(0))];
    Run5(x, EMPTY, create1, create2, begin, Sends(Lock(0)), Sends(Stamp(0)));
    TwoBlank(x, now);
    FirstClaim(x, Step(x, Step(x, EMPTY, create1), create2), 1, now);
    CommitIs(x, Run(x, EMPTY, before), 0);
    acts := before + [Sends(Commit(0))];
    RunSnoc(x, EMPTY, before, Sends(Commit(0)));
  }
}
