/** What a redemption sees of a race: the statements of a call look at different columns, so the outcome is
    decided by what other calls did to those columns between them. */
module MagicRaces {
  import opened Common
  import opened MagicCodes
  import opened MagicLinks

  // ----- Other calls -----

  /** None of the steps is a redeeming statement of `t`. */
  ghost predicate Avoids(acts: seq<Action>, t: TaskId) {
    forall a :: a in acts && a.Redeems? ==> a.redeem.task != t
  }

  lemma {:induction false} StepLeavesAttempt(x: Setup, s: State, a: Action, t: TaskId)
    requires a.Redeems? ==> a.redeem.task != t
    ensures t in Step(x, s, a).attempts <==> t in s.attempts
    ensures t in s.attempts ==> Step(x, s, a).attempts[t] == s.attempts[t]
  {
    if a.Sends? {
      SendFrame(x, s, a.send);
    }
  }

  /** A call keeps its place while others run. */
  lemma {:induction false} AttemptWaits(x: Setup, s: State, acts: seq<Action>, t: TaskId)
    requires Avoids(acts, t)
    ensures t in Run(x, s, acts).attempts <==> t in s.attempts
    ensures t in s.attempts ==> Run(x, s, acts).attempts[t] == s.attempts[t]
    decreases |acts|
  {
    if acts != [] {
      assert acts[0] in acts && forall a :: a in acts[1..] ==> a in acts;
      StepLeavesAttempt(x, s, acts[0], t);
      AttemptWaits(x, Step(x, s, acts[0]), acts[1..], t);
    }
  }

  // ----- What happened to the row -----

  /** The statement marks the row superseded. */
  predicate RetiresRow(s: State, a: Action, id: Id) {
    a.Keeps? && a.keep.Retire? && CanKeep(s, a.keep) && id in s.rows && Retires(s.rows, a.keep.email, a.keep.keep, id)
  }

  predicate RetiredAlong(x: Setup, s: State, acts: seq<Action>, id: Id)
    decreases |acts|
  {
    acts != [] && (RetiresRow(s, acts[0], id) || RetiredAlong(x, Step(x, s, acts[0]), acts[1..], id))
  }

  /** The statement deletes rows that expired when this one did. */
  predicate Sweeps(a: Action, expiresAt: Instant) {
    a.Keeps? && a.keep.Sweep? && expiresAt < a.keep.now - RETENTION
  }

  ghost predicate SweptAlong(acts: seq<Action>, expiresAt: Instant) {
    exists a :: a in acts && Sweeps(a, expiresAt)
  }

  /** A row is superseded by nothing but a retiring statement, and deleted by nothing but a sweep. */
  lemma {:induction false} StepRow(x: Setup, s: State, a: Action, id: Id)
    requires RowsKnown(s) && id in s.created
    ensures
      var t := Step(x, s, a);
      RowsKnown(t) && id in t.created && t.created[id] == s.created[id] &&
      (id in t.rows <==> id in s.rows && !Sweeps(a, s.created[id].expiresAt)) &&
      (id in t.rows ==> (t.rows[id].supersededAt.Some? <==> s.rows[id].supersededAt.Some? || RetiresRow(s, a, id)))
  {
    StepRows(x, s, a);
    match a {
      case Redeems(b) => RedeemFrame(x, s, b);
      case Sends(b) => SendFrame(x, s, b);
      case Keeps(b) => KeepRow(s, b, id);
    }
  }

  lemma {:induction false} KeepRow(s: State, a: Keeping, id: Id)
    requires RowsKnown(s) && id in s.created
    ensures
      var t := KeepStep(s, a);
      id in t.created && t.created[id] == s.created[id] &&
      (id in t.rows <==> id in s.rows && !Sweeps(Keeps(a), s.created[id].expiresAt)) &&
      (id in t.rows ==>
         (t.rows[id].supersededAt.Some? <==> s.rows[id].supersededAt.Some? || RetiresRow(s, Keeps(a), id)))
  {
  }

  lemma {:induction false} RowAlong(x: Setup, s: State, acts: seq<Action>, id: Id)
    requires RowsKnown(s) && id in s.created
    ensures
      var t := Run(x, s, acts);
      RowsKnown(t) && id in t.created && t.created[id] == s.created[id] &&
      (id in t.rows <==> id in s.rows && !SweptAlong(acts, s.created[id].expiresAt)) &&
      (id in t.rows ==>
         (t.rows[id].supersededAt.Some? <==> s.rows[id].supersededAt.Some? || RetiredAlong(x, s, acts, id)))
    decreases |acts|
  {
    if acts != [] {
      var t := Step(x, s, acts[0]);
      StepRow(x, s, acts[0], id);
      RowAlong(x, t, acts[1..], id);
      assert forall a :: a in acts <==> a == acts[0] || a in acts[1..];
    }
  }

  /** Some call has redeemed the row. */
  ghost predicate Redeemed(s: State, id: Id) {
    exists k :: 0 <= k < |s.redemptions| && s.redemptions[k].id == id
  }

  lemma {:induction false} UnusedIffNotRedeemed(s: State, id: Id)
    requires Redeeming(s) && id in s.rows
    ensures Unused(s.rows, id) <==> !Redeemed(s, id)
  {
  }

  // ----- The link -----

  /** A link found live redeems, whatever other calls run before its second statement, if and only if by
      then nobody else has redeemed the row and no sweep has deleted it. Whether the row has been
      superseded by then plays no part: it has if and only if some statement in between retired it. */
  lemma {:induction false} LinkRedeemsIff(
    x: Setup, before: seq<Action>, t: TaskId, id: Id, token: string, now: Instant, between: seq<Action>, later: Instant)
    requires CanRedeem(x, Run(x, EMPTY, before), FindLink(t, id, token, now)) && Avoids(between, t)
    ensures id in Run(x, EMPTY, before).created
    ensures
      var found := RedeemStep(x, Run(x, EMPTY, before), FindLink(t, id, token, now));
      var s := Run(x, found, between);
      var marked := RedeemStep(x, s, MarkLink(t, later));
      (marked.redemptions == s.redemptions + [Redemption(id, Link, now, None)] <==>
         !Redeemed(s, id) && !SweptAlong(between, found.created[id].expiresAt)) &&
      (id in s.rows ==> (s.rows[id].supersededAt.Some? <==> RetiredAlong(x, found, between, id)))
  {
    var s0 := Run(x, EMPTY, before);
    RedeemingAlong(x, EMPTY, before);
    var found := RedeemStep(x, s0, FindLink(t, id, token, now));
    assert found == Step(x, s0, Redeems(FindLink(t, id, token, now)));
    StepRedeeming(x, s0, Redeems(FindLink(t, id, token, now)));
    RedeemingAlong(x, found, between);
    var s := Run(x, found, between);
    AttemptWaits(x, found, between, t);
    RowAlong(x, found, between, id);
    assert RedeemStep(x, s, MarkLink(t, later)) == Mark(s, t, Link, later);
    if id in s.rows {
      UnusedIffNotRedeemed(s, id);
    }
  }

  // ----- The code -----

  /** A code call after its lookup: claim the guess, check it, mark the row, others running in between. */
  datatype Race = Race(untilClaim: seq<Action>, untilCheck: seq<Action>, untilMark: seq<Action>)

  ghost predicate RaceAvoids(r: Race, t: TaskId) {
    Avoids(r.untilClaim, t) && Avoids(r.untilCheck, t) && Avoids(r.untilMark, t)
  }

  function AtClaim(x: Setup, s: State, r: Race): State { Run(x, s, r.untilClaim) }

  function AtCheck(x: Setup, s: State, r: Race, t: TaskId, now: Instant): State {
    Run(x, RedeemStep(x, AtClaim(x, s, r), ClaimGuess(t, now)), r.untilCheck)
  }

  function AtMark(x: Setup, s: State, r: Race, t: TaskId, now: Instant): State {
    Run(x, RedeemStep(x, AtCheck(x, s, r, t, now), CheckGuess(t)), r.untilMark)
  }

  predicate RetiredInRace(x: Setup, s: State, r: Race, t: TaskId, now: Instant, id: Id) {
    RetiredAlong(x, s, r.untilClaim, id) ||
    RetiredAlong(x, RedeemStep(x, AtClaim(x, s, r), ClaimGuess(t, now)), r.untilCheck, id) ||
    RetiredAlong(x, RedeemStep(x, AtCheck(x, s, r, t, now), CheckGuess(t)), r.untilMark, id)
  }

  ghost predicate SweptInRace(r: Race, expiresAt: Instant) {
    SweptAlong(r.untilClaim, expiresAt) || SweptAlong(r.untilCheck, expiresAt) || SweptAlong(r.untilMark, expiresAt)
  }

  /** The row of a code race at its last statement. */
  lemma {:induction false} RowInRace(x: Setup, s: State, r: Race, t: TaskId, now: Instant, id: Id)
    requires RowsKnown(s) && id in s.created
    ensures
      var e := AtMark(x, s, r, t, now);
      RowsKnown(e) && id in e.created && e.created[id] == s.created[id] &&
      (id in e.rows <==> id in s.rows && !SweptInRace(r, s.created[id].expiresAt)) &&
      (id in e.rows ==>
         (e.rows[id].supersededAt.Some? <==> s.rows[id].supersededAt.Some? || RetiredInRace(x, s, r, t, now, id)))
    ensures
      var c := AtClaim(x, s, r);
      RowsKnown(c) && id in c.created && c.created[id] == s.created[id]
  {
    var claim, check := Redeems(ClaimGuess(t, now)), Redeems(CheckGuess(t));
    var c := AtClaim(x, s, r);
    RowAlong(x, s, r.untilClaim, id);
    StepRow(x, c, claim, id);
    RowAlong(x, Step(x, c, claim), r.untilCheck, id);
    var k := AtCheck(x, s, r, t, now);
    StepRow(x, k, check, id);
    RowAlong(x, Step(x, k, check), r.untilMark, id);
  }

  /** The call itself: it reaches its last statement if and only if the claim went to it and the guess is right. */
  lemma {:induction false} AttemptInRace(x: Setup, s: State, r: Race, t: TaskId, now: Instant, id: Id)
    requires RowsKnown(s) && RaceAvoids(r, t) && id in s.created && s.created[id].codeHash.Some?
    requires t in s.attempts && s.attempts[t].CodeFound? && s.attempts[t].id == id
    ensures
      var e, a := AtMark(x, s, r, t, now), s.attempts[t];
      t in e.attempts && e.attempts[t].GuessRight? <==>
        Unspent(AtClaim(x, s, r).rows, id) && x.matches(a.guess, s.created[id].codeHash.value)
    ensures
      var e := AtMark(x, s, r, t, now);
      t in e.attempts ==> e.attempts[t] == GuessRight(id, s.attempts[t].at, s.attempts[t].nonce)
  {
    var a, c := s.attempts[t], AtClaim(x, s, r);
    AttemptWaits(x, s, r.untilClaim, t);
    RowAlong(x, s, r.untilClaim, id);
    var claimed := RedeemStep(x, c, ClaimGuess(t, now));
    assert claimed == Claimed(c, t, now);
    AttemptWaits(x, claimed, r.untilCheck, t);
    var k := AtCheck(x, s, r, t, now);
    AttemptWaits(x, RedeemStep(x, k, CheckGuess(t)), r.untilMark, t);
  }

  /** A code found live redeems, whatever other calls run between its statements, if and only if nobody
      claimed the row's guess before it, the guess is right, and by its last statement nobody has redeemed
      the row and no sweep has deleted it. Again superseding plays no part: the row is superseded by then
      if and only if some statement in between retired it. */
  lemma {:induction false} CodeRedeemsIff(
    x: Setup, before: seq<Action>, t: TaskId, id: Id, nonceHash: Hash, typed: string, now: Instant,
    r: Race, claimedAt: Instant, later: Instant)
    requires CanRedeem(x, Run(x, EMPTY, before), FindCode(t, id, nonceHash, typed, now)) && RaceAvoids(r, t)
    ensures id in Run(x, EMPTY, before).created && Run(x, EMPTY, before).created[id].codeHash.Some?
    ensures
      var found := RedeemStep(x, Run(x, EMPTY, before), FindCode(t, id, nonceHash, typed, now));
      var s := AtMark(x, found, r, t, claimedAt);
      var marked := RedeemStep(x, s, MarkCode(t, later));
      (marked.redemptions == s.redemptions + [Redemption(id, Code, now, Some(nonceHash))] <==>
         Unspent(AtClaim(x, found, r).rows, id) &&
         x.matches(Normalize(typed), found.created[id].codeHash.value) &&
         !Redeemed(s, id) && !SweptInRace(r, found.created[id].expiresAt)) &&
      (id in s.rows ==> (s.rows[id].supersededAt.Some? <==> RetiredInRace(x, found, r, t, claimedAt, id)))
  {
    CodeFoundLive(x, before, t, id, nonceHash, typed, now);
    var found := RedeemStep(x, Run(x, EMPTY, before), FindCode(t, id, nonceHash, typed, now));
    MarkInRace(x, found, r, t, claimedAt, later, id);
  }

  lemma {:induction false} CodeFoundLive(
    x: Setup, before: seq<Action>, t: TaskId, id: Id, nonceHash: Hash, typed: string, now: Instant)
    requires CanRedeem(x, Run(x, EMPTY, before), FindCode(t, id, nonceHash, typed, now))
    ensures
      var found := RedeemStep(x, Run(x, EMPTY, before), FindCode(t, id, nonceHash, typed, now));
      Redeeming(found) && found.created == Run(x, EMPTY, before).created &&
      id in found.created && found.created[id].codeHash.Some? &&
      id in found.rows && found.rows[id].supersededAt.None? &&
      t in found.attempts && found.attempts[t] == CodeFound(id, now, Some(nonceHash), Normalize(typed))
  {
    RedeemingAlong(x, EMPTY, before);
    StepRedeeming(x, Run(x, EMPTY, before), Redeems(FindCode(t, id, nonceHash, typed, now)));
  }

  /** The last statement of a code race. */
  lemma {:induction false} MarkInRace(
    x: Setup, s: State, r: Race, t: TaskId, claimedAt: Instant, later: Instant, id: Id)
    requires Redeeming(s) && RaceAvoids(r, t) && id in s.created && s.created[id].codeHash.Some?
    requires id in s.rows && s.rows[id].supersededAt.None?
    requires t in s.attempts && s.attempts[t].CodeFound? && s.attempts[t].id == id
    ensures
      var e := AtMark(x, s, r, t, claimedAt);
      (RedeemStep(x, e, MarkCode(t, later)).redemptions ==
         e.redemptions + [Redemption(id, Code, s.attempts[t].at, s.attempts[t].nonce)] <==>
         Unspent(AtClaim(x, s, r).rows, id) && x.matches(s.attempts[t].guess, s.created[id].codeHash.value) &&
         !Redeemed(e, id) && !SweptInRace(r, s.created[id].expiresAt)) &&
      (id in e.rows ==> (e.rows[id].supersededAt.Some? <==> RetiredInRace(x, s, r, t, claimedAt, id)))
  {
    RowInRace(x, s, r, t, claimedAt, id);
    AttemptInRace(x, s, r, t, claimedAt, id);
    RaceRedeeming(x, s, r, t, claimedAt);
    var e := AtMark(x, s, r, t, claimedAt);
    if id in e.rows {
      UnusedIffNotRedeemed(e, id);
    }
    LastStatement(x, e, t, later);
  }

  lemma {:induction false} LastStatement(x: Setup, e: State, t: TaskId, later: Instant)
    ensures
      var after := RedeemStep(x, e, MarkCode(t, later)).redemptions;
      if t in e.attempts && e.attempts[t].GuessRight? && Unused(e.rows, e.attempts[t].id)
      then after == e.redemptions + [Redemption(e.attempts[t].id, Code, e.attempts[t].at, e.attempts[t].nonce)]
      else after == e.redemptions
  {
  }

  lemma {:induction false} RaceRedeeming(x: Setup, s: State, r: Race, t: TaskId, now: Instant)
    requires Redeeming(s)
    ensures Redeeming(AtMark(x, s, r, t, now))
  {
    RedeemingAlong(x, s, r.untilClaim);
    StepRedeeming(x, AtClaim(x, s, r), Redeems(ClaimGuess(t, now)));
    RedeemingAlong(x, Step(x, AtClaim(x, s, r), Redeems(ClaimGuess(t, now))), r.untilCheck);
    var k := AtCheck(x, s, r, t, now);
    StepRedeeming(x, k, Redeems(CheckGuess(t)));
    RedeemingAlong(x, Step(x, k, Redeems(CheckGuess(t))), r.untilMark);
  }

  lemma {:induction false} Run1(x: Setup, s: State, a: Action)
    ensures Run(x, s, [a]) == Step(x, s, a)
  {
    assert [a][1..] == [];
    assert Run(x, Step(x, s, a), []) == Step(x, s, a);
  }

  lemma {:induction false} Run3(x: Setup, s: State, a: Action, b: Action, c: Action)
    ensures Run(x, s, [a, b, c]) == Step(x, Step(x, Step(x, s, a), b), c)
  {
    var s1, s2 := Step(x, s, a), Step(x, Step(x, s, a), b);
    assert [a, b, c][1..] == [b, c] && [b, c][1..] == [c] && [c][1..] == [];
    assert Run(x, s1, [b, c]) == Run(x, s2, [c]) == Step(x, s2, c);
  }

  /** Two requests for one address, and only the first one's mail out. */
  lemma {:induction false} TwoRequests(x: Setup) returns (before: seq<Action>)
    ensures
      var s := Run(x, EMPTY, before);
      s.rows == map[1 := Row(Blank(1, "n"), None, None, None, Some(5), None),
                    2 := Row(Blank(2, "n"), None, None, None, None, None)] &&
      s.created == map[1 := Blank(1, "n"), 2 := Blank(2, "n")] && s.attempts == map[]
  {
    var create1, create2 := Keeps(Create(1, Blank(1, "n"))), Keeps(Create(2, Blank(2, "n")));
    before := [create1, create2, Sends(StampAlways(1, 5))];
    Run3(x, EMPTY, create1, create2, Sends(StampAlways(1, 5)));
  }

  /** Retired right after its lookup, a right code still redeems a superseded row. */
  lemma {:induction false} RetiredCodeRedeems(
    x: Setup, s: State, t: TaskId, id: Id, retire: Keeping, claimedAt: Instant, later: Instant)
    requires t in s.attempts && s.attempts[t].CodeFound? && s.attempts[t].id == id
    requires RetiresRow(s, Keeps(retire), id) && Unspent(s.rows, id) && s.rows[id].info.codeHash.Some?
    requires x.matches(s.attempts[t].guess, s.rows[id].info.codeHash.value)
    ensures
      var e := AtMark(x, s, Race([Keeps(retire)], [], []), t, claimedAt);
      RedeemStep(x, e, MarkCode(t, later)).redemptions ==
        e.redemptions + [Redemption(id, Code, s.attempts[t].at, s.attempts[t].nonce)] &&
      id in e.rows && e.rows[id].supersededAt == Some(retire.now)
  {
    var r, a := Race([Keeps(retire)], [], []), s.attempts[t];
    Run1(x, s, Keeps(retire));
    var c := AtClaim(x, s, r);
    assert c.rows[id] == s.rows[id].(supersededAt := Some(retire.now)) && c.attempts == s.attempts;
    var k := RedeemStep(x, c, ClaimGuess(t, claimedAt));
    assert k == Claimed(c, t, claimedAt) == AtCheck(x, s, r, t, claimedAt);
    var e := RedeemStep(x, k, CheckGuess(t));
    assert e == Checked(x, k, t) == AtMark(x, s, r, t, claimedAt);
    LastStatement(x, e, t, later);
  }

  /** The code of the first mail is found, then its row is superseded by the second, then it redeems. */
  lemma {:induction false} SupersededCodeMidway(x: Setup) returns (before: seq<Action>, retire: Keeping)
    requires x.matches("AAAAAA", "c")
    ensures CanRedeem(x, Run(x, EMPTY, before), FindCode(0, 1, "n", "AAAAAA", 10))
    ensures
      var found := RedeemStep(x, Run(x, EMPTY, before), FindCode(0, 1, "n", "AAAAAA", 10));
      var s := AtMark(x, found, Race([Keeps(retire)], [], []), 0, 30);
      RedeemStep(x, s, MarkCode(0, 40)).redemptions == s.redemptions + [Redemption(1, Code, 10, Some("n"))] &&
      1 in s.rows && s.rows[1].supersededAt == Some(20)
  {
    before := TwoRequests(x);
    retire := Retire("a", 2, 20);
    AlphabetIsFixed("AAAAAA");
    var s0 := Run(x, EMPTY, before);
    assert NewestCodeRow(s0.rows, 1, "n", 10);
    var found := RedeemStep(x, s0, FindCode(0, 1, "n", "AAAAAA", 10));
    assert found == s0.(attempts := map[0 := CodeFound(1, 10, Some("n"), "AAAAAA")]);
    assert Retires(found.rows, "a", 2, 1);
    RetiredCodeRedeems(x, found, 0, 1, retire, 30, 40);
  }
}
