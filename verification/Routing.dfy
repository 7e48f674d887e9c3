/** The pending table of the ad-hoc dispatcher, which routes each result back to the one request
    waiting for it. */
module Routing {
  import opened Common
  import opened RegionSlots

  type Region = string
  type Report = string

  /** The check's fields the dispatcher vouches for. */
  datatype Meta = Meta(kind: Kind, org: nat, target: Option<nat>)

  function MetaOf(c: Check): Meta { Meta(c.kind, c.org, c.target) }

  /** The one-shot sender of a check: still in place, used for a report, or taken out unused. It lives
      as long as anyone holds it, whether or not the table still names it. */
  datatype Sender = Armed | Sent(report: Report) | Dropped

  /** A `complete` that found its check: the report it was given and the meta it returned. */
  datatype Completion = Completion(id: CheckId, report: Report, meta: Meta)

  datatype Router = Router(
    pending: map<CheckId, Meta>,
    senders: map<CheckId, Sender>,
    known: map<CheckId, (Region, Check)>,      // every dispatch call ever made
    abandoning: multiset<CheckId>,             // abandon calls that hold the sender
    completing: map<CheckId, Report>,          // complete calls that hold the sender
    completions: seq<Completion>)              // what complete returned, in order

  const EMPTY := Router(map[], map[], map[], multiset{}, map[], [])

  // ----- Atomic steps -----

  /** First part of `dispatch`: make the channel and enter it in the table. */
  function Register(s: Router, r: Region, c: Check): Router {
    s.(pending := s.pending[c.id := MetaOf(c)],
       senders := s.senders[c.id := Armed],
       known := s.known[c.id := (r, c)])
  }

  /** Expiry and eviction: the table forgets the check, whoever holds its sender keeps it. */
  function Forget(s: Router, id: CheckId): Router { s.(pending := s.pending - {id}) }

  /** `abandon` got hold of the sender. */
  function Abandon(s: Router, id: CheckId): Router { s.(abandoning := s.abandoning + multiset{id}) }

  /** `abandon` takes the sender out of its cell and drops it. */
  function TakeAbandoned(s: Router, id: CheckId): Router
    requires id in s.senders
  {
    s.(abandoning := s.abandoning - multiset{id},
       senders := if s.senders[id] == Armed then s.senders[id := Dropped] else s.senders)
  }

  /** `complete` removed the entry: the table gives it to one caller only. */
  function Complete(s: Router, id: CheckId, report: Report): Router
    requires id in s.pending
  {
    s.(pending := s.pending - {id},
       completing := s.completing[id := report],
       completions := s.completions + [Completion(id, report, s.pending[id])])
  }

  /** `complete` sends, if the sender is still in its cell. */
  function Deliver(s: Router, id: CheckId): Router
    requires id in s.completing && id in s.senders
  {
    s.(completing := s.completing - {id},
       senders := if s.senders[id] == Armed then s.senders[id := Sent(s.completing[id])] else s.senders)
  }

  datatype Action =
    | DoRegister(region: Region, check: Check)
    | DoForget(id: CheckId)
    | DoAbandon(id: CheckId)
    | DoTakeAbandoned(id: CheckId)
    | DoComplete(id: CheckId, report: Report)
    | DoDeliver(id: CheckId)

  predicate Enabled(s: Router, a: Action) {
    match a
    case DoRegister(r, c) => c.id !in s.known        // ids are never reused
    case DoForget(id) => true                         // the cache may forget any entry at any time
    case DoAbandon(id) => id in s.pending
    case DoTakeAbandoned(id) => id in s.abandoning && id in s.senders
    case DoComplete(id, report) => id in s.pending
    case DoDeliver(id) => id in s.completing && id in s.senders
  }

  /** One step of any task; a step that is not enabled changes nothing. */
  function Step(s: Router, a: Action): Router {
    if !Enabled(s, a) then s
    else
      match a
      case DoRegister(r, c) => Register(s, r, c)
      case DoForget(id) => Forget(s, id)
      case DoAbandon(id) => Abandon(s, id)
      case DoTakeAbandoned(id) => TakeAbandoned(s, id)
      case DoComplete(id, report) => Complete(s, id, report)
      case DoDeliver(id) => Deliver(s, id)
  }

  /** Any interleaving is a sequence of actions. */
  function Run(s: Router, acts: seq<Action>): Router
    decreases |acts|
  {
    if acts == [] then s else Run(Step(s, acts[0]), acts[1..])
  }

  // ----- Invariants -----

  ghost predicate CompletedWith(s: Router, id: CheckId, report: Report) {
    exists k :: 0 <= k < |s.completions| && s.completions[k].id == id && s.completions[k].report == report
  }

  /** The table names known checks, each with its own meta. */
  ghost predicate TableSound(s: Router) {
    s.senders.Keys == s.known.Keys &&
    (forall id :: id in s.known ==> s.known[id].1.id == id) &&
    (forall id :: id in s.pending ==> id in s.known && s.pending[id] == MetaOf(s.known[id].1))
  }

  /** At most one `complete` per check returns a meta: the meta of the dispatched check. */
  ghost predicate CompletedOnce(s: Router) {
    (forall i, j :: 0 <= i < j < |s.completions| ==> s.completions[i].id != s.completions[j].id) &&
    (forall k :: 0 <= k < |s.completions| ==>
       s.completions[k].id in s.known && s.completions[k].id !in s.pending &&
       s.completions[k].meta == MetaOf(s.known[s.completions[k].id].1))
  }

  /** A sender only ever carries the report of the `complete` that got the meta. */
  ghost predicate ReportsRouted(s: Router) {
    (forall id :: id in s.completing ==> CompletedWith(s, id, s.completing[id])) &&
    (forall id :: id in s.senders && s.senders[id].Sent? ==> CompletedWith(s, id, s.senders[id].report))
  }

  ghost predicate Sound(s: Router) {
    TableSound(s) && CompletedOnce(s) && ReportsRouted(s)
  }

  lemma {:induction false} StepReports(s: Router, a: Action)
    requires ReportsRouted(s)
    ensures ReportsRouted(Step(s, a))
  {
    var t := Step(s, a);
    assert s.completions <= t.completions;
    forall id, report | CompletedWith(s, id, report) ensures CompletedWith(t, id, report) {
      var k :| 0 <= k < |s.completions| && s.completions[k].id == id && s.completions[k].report == report;
      assert t.completions[k] == s.completions[k];
    }
    if Enabled(s, a) && a.DoComplete? {
      assert t.completions[|s.completions|] == Completion(a.id, a.report, s.pending[a.id]);
      assert CompletedWith(t, a.id, a.report);
    }
  }

  lemma StepTable(s: Router, a: Action)
    requires TableSound(s)
    ensures TableSound(Step(s, a))
  {
  }

  lemma StepCompletes(s: Router, a: Action)
    requires TableSound(s) && CompletedOnce(s)
    ensures CompletedOnce(Step(s, a))
  {
  }

  lemma {:induction false} StepSound(s: Router, a: Action)
    requires Sound(s)
    ensures Sound(Step(s, a))
  {
    StepTable(s, a);
    StepCompletes(s, a);
    StepReports(s, a);
  }

  lemma {:induction false} SoundAlong(s: Router, acts: seq<Action>)
    requires Sound(s)
    ensures Sound(Run(s, acts))
    decreases |acts|
  {
    if acts != [] {
      StepSound(s, acts[0]);
      SoundAlong(Step(s, acts[0]), acts[1..]);
    }
  }

  // ----- What callers see -----

  /** Whatever the interleaving: at most one `complete` of a check returns its meta, that of the
      dispatched check, and a report the receiver gets is the one given to that call. */
  lemma {:induction false} ExactlyOnceRouting(acts: seq<Action>, id: CheckId)
    ensures
      var s := Run(EMPTY, acts);
      (forall i, j :: 0 <= i < j < |s.completions| ==> !(s.completions[i].id == s.completions[j].id == id)) &&
      (forall k :: 0 <= k < |s.completions| && s.completions[k].id == id ==>
         id in s.known && s.completions[k].meta == MetaOf(s.known[id].1)) &&
      (id in s.senders && s.senders[id].Sent? ==> CompletedWith(s, id, s.senders[id].report))
  {
    SoundAlong(EMPTY, acts);
  }

  /** Field by field: in every reachable state what a `complete` returned is the kind, the org and the target
      of the check dispatched under that id. */
  lemma {:induction false} CompletedFields(acts: seq<Action>, k: nat)
    requires k < |Run(EMPTY, acts).completions|
    ensures
      var s := Run(EMPTY, acts);
      var done := s.completions[k];
      done.id in s.known && s.known[done.id].1.id == done.id &&
      done.meta.kind == s.known[done.id].1.kind &&
      done.meta.org == s.known[done.id].1.org &&
      done.meta.target == s.known[done.id].1.target
  {
    SoundAlong(EMPTY, acts);
  }

  lemma {:induction false} StepKeepsOutcome(s: Router, a: Action, id: CheckId)
    requires TableSound(s) && id in s.senders && s.senders[id] != Armed
    ensures TableSound(Step(s, a))
    ensures id in Step(s, a).senders && Step(s, a).senders[id] == s.senders[id]
  {
    StepTable(s, a);
  }

  /** A step forgets no dispatch, and brings no check back into the table. */
  lemma {:induction false} StepGrows(s: Router, a: Action)
    requires TableSound(s)
    ensures TableSound(Step(s, a))
    ensures forall id :: id in s.known ==> id in Step(s, a).known && Step(s, a).known[id] == s.known[id]
    ensures forall id :: id in s.known && id in Step(s, a).pending ==> id in s.pending
  {
    StepTable(s, a);
  }

  /** A receiver's outcome is final: a report stays, and a dropped sender never delivers. */
  lemma {:induction false} OutcomeFinal(s: Router, acts: seq<Action>, id: CheckId)
    requires TableSound(s) && id in s.senders && s.senders[id] != Armed
    ensures id in Run(s, acts).senders && Run(s, acts).senders[id] == s.senders[id]
    decreases |acts|
  {
    if acts != [] {
      StepKeepsOutcome(s, acts[0], id);
      OutcomeFinal(Step(s, acts[0]), acts[1..], id);
    }
  }

  lemma {:induction false} CompletionsGrow(s: Router, acts: seq<Action>)
    ensures s.completions <= Run(s, acts).completions
    decreases |acts|
  {
    if acts != [] {
      CompletionsGrow(Step(s, acts[0]), acts[1..]);
    }
  }

  lemma {:induction false} RunAppend(s: Router, a: seq<Action>, b: seq<Action>)
    ensures Run(s, a + b) == Run(Run(s, a), b)
    decreases |a|
  {
    if a == [] {
      assert a + b == b;
    } else {
      assert (a + b)[1..] == a[1..] + b;
      RunAppend(Step(s, a[0]), a[1..], b);
    }
  }

  /** An abandoned check that the cache still holds yields its meta to the next `complete`; nothing is
      delivered then or ever after, and no other `complete` finds it, before or after. */
  lemma {:induction false} AbandonedStillPersists(before: seq<Action>, id: CheckId, report: Report, after: seq<Action>)
    requires id in Run(EMPTY, before).pending
    requires id in Run(EMPTY, before).senders && Run(EMPTY, before).senders[id] == Dropped
    ensures id in Run(EMPTY, before).known
    ensures
      var s := Run(EMPTY, before);
      var e := Run(Step(s, DoComplete(id, report)), after);
      s.completions + [Completion(id, report, MetaOf(s.known[id].1))] <= e.completions &&
      (forall k :: 0 <= k < |e.completions| && e.completions[k].id == id ==> k == |s.completions|) &&
      (var meta := e.completions[|s.completions|].meta;
       meta.kind == s.known[id].1.kind && meta.org == s.known[id].1.org && meta.target == s.known[id].1.target) &&
      id !in e.pending && id in e.senders && e.senders[id] == Dropped
  {
    var s := Run(EMPTY, before);
    SoundAlong(EMPTY, before);
    var t := Step(s, DoComplete(id, report));
    StepSound(s, DoComplete(id, report));
    SoundAlong(t, after);
    OutcomeFinal(t, after, id);
    CompletionsGrow(t, after);
    var e := Run(t, after);
    assert e.completions[|s.completions|] == t.completions[|s.completions|];
  }

  /** A check the table forgot, by eviction or expiry, before any `complete` reached it. */
  ghost predicate Forgotten(s: Router, id: CheckId) {
    TableSound(s) && id in s.known && id !in s.pending && id !in s.completing && !s.senders[id].Sent?
  }

  lemma {:induction false} StepStaysForgotten(s: Router, a: Action, id: CheckId)
    requires Forgotten(s, id)
    ensures Forgotten(Step(s, a), id)
    ensures forall k :: |s.completions| <= k < |Step(s, a).completions| ==> Step(s, a).completions[k].id != id
  {
    StepTable(s, a);
  }

  /** Nothing is ever delivered to its request again, and no later `complete` finds it. */
  lemma {:induction false} ForgottenForGood(s: Router, acts: seq<Action>, id: CheckId)
    requires Forgotten(s, id)
    ensures Forgotten(Run(s, acts), id)
    ensures forall k :: |s.completions| <= k < |Run(s, acts).completions| ==> Run(s, acts).completions[k].id != id
    decreases |acts|
  {
    if acts != [] {
      var t := Step(s, acts[0]);
      StepStaysForgotten(s, acts[0], id);
      ForgottenForGood(t, acts[1..], id);
      CompletionsGrow(t, acts[1..]);
      forall k | |s.completions| <= k < |t.completions| ensures Run(s, acts).completions[k] == t.completions[k] {
      }
    }
  }

  /** Some `abandon` that holds the sender takes it out. */
  predicate TakenAlong(s: Router, acts: seq<Action>, id: CheckId)
    decreases |acts|
  {
    acts != [] &&
    ((acts[0] == DoTakeAbandoned(id) && Enabled(s, acts[0])) || TakenAlong(Step(s, acts[0]), acts[1..], id))
  }

  /** A `complete` is between its steps with the report. */
  ghost predicate Completing(s: Router, id: CheckId, report: Report) {
    TableSound(s) && id in s.known && id !in s.pending && id in s.completing && s.completing[id] == report
  }

  lemma {:induction false} StepCompleting(s: Router, id: CheckId, report: Report, a: Action)
    requires Completing(s, id, report) && a != DoDeliver(id)
    ensures Completing(Step(s, a), id, report)
    ensures Step(s, a).senders[id] ==
      if s.senders[id] == Armed && a == DoTakeAbandoned(id) && Enabled(s, a) then Dropped else s.senders[id]
  {
    StepTable(s, a);
  }

  lemma {:induction false} SenderAlong(s: Router, id: CheckId, report: Report, acts: seq<Action>)
    requires Completing(s, id, report) && DoDeliver(id) !in acts && !s.senders[id].Sent?
    ensures Completing(Run(s, acts), id, report)
    ensures Run(s, acts).senders[id] == if TakenAlong(s, acts, id) then Dropped else s.senders[id]
    decreases |acts|
  {
    if acts != [] {
      assert acts[0] in acts && forall x :: x in acts[1..] ==> x in acts;
      StepCompleting(s, id, report, acts[0]);
      SenderAlong(Step(s, acts[0]), id, report, acts[1..]);
    }
  }

  /** A `complete` that found the sender in place delivers its report, whatever other tasks do between its
      two steps, if and only if no `abandon` that already held the sender takes it out in between. */
  lemma {:induction false} DeliveredIff(s: Router, id: CheckId, report: Report, between: seq<Action>)
    requires TableSound(s) && id in s.pending && id in s.senders && s.senders[id] == Armed
    requires DoDeliver(id) !in between
    ensures
      var held := Step(s, DoComplete(id, report));
      var senders := Run(held, between).senders;
      var after := Step(Run(held, between), DoDeliver(id)).senders;
      after == (if TakenAlong(held, between, id) then senders else senders[id := Sent(report)]) &&
      id in after && (after[id] == Sent(report) <==> !TakenAlong(held, between, id))
  {
    var held := Step(s, DoComplete(id, report));
    StepTable(s, DoComplete(id, report));
    assert Completing(held, id, report);
    SenderAlong(held, id, report, between);
  }

  /** Once the entry is removed, no further `abandon` gets hold of the sender. */
  lemma {:induction false} NobodyTakes(s: Router, acts: seq<Action>, id: CheckId)
    requires TableSound(s) && id in s.known && id !in s.pending && id !in s.abandoning
    ensures !TakenAlong(s, acts, id)
    decreases |acts|
  {
    if acts != [] {
      StepTable(s, acts[0]);
      NobodyTakes(Step(s, acts[0]), acts[1..], id);
    }
  }

  /** In particular it always does if nobody was abandoning that check. */
  lemma {:induction false} DeliveredUnlessAbandoned(s: Router, id: CheckId, report: Report, between: seq<Action>)
    requires TableSound(s) && id in s.pending && id !in s.abandoning
    requires id in s.senders && s.senders[id] == Armed
    requires DoDeliver(id) !in between
    ensures
      var t := Run(Step(s, DoComplete(id, report)), between);
      Step(t, DoDeliver(id)).senders == t.senders[id := Sent(report)]
  {
    StepTable(s, DoComplete(id, report));
    NobodyTakes(Step(s, DoComplete(id, report)), between, id);
    DeliveredIff(s, id, report, between);
  }
}
