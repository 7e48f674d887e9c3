/** The token table as an object: each function of the source run on its own, statement by statement. */
module TokenTable {
  import opened Common
  import opened MagicCodes
  import opened MagicLinks

  /** The protocol with no call under way. */
  ghost function Quiet(rows: Rows): State {
    State(rows, map id | id in rows :: rows[id].info, map[], [], [], map[], map[], map[], EMPTY.log)
  }

  /** A claim whose statements nobody comes between. */
  ghost function ClaimSteps(rows: Rows, id: Id, email: Email, window: nat, now: Instant): State {
    var x, s := Setup((token, hash) => false, 0), Quiet(rows);
    if window == 0 then SendStep(x, s, StampAlways(id, now))
    else
      var locked := SendStep(x, SendStep(x, s, Begin(0, id, email, window, now)), Lock(0));
      SendStep(x, SendStep(x, locked, Stamp(0)), Commit(0))
  }

  /** Alone, the transaction marks the row sent if and only if it is unsent and no mail of the address is
      inside the window, and leaves neither a lock nor a call behind. */
  lemma {:induction false} ClaimIsItsSteps(rows: Rows, id: Id, email: Email, window: nat, now: Instant)
    requires id in rows && rows[id].info.email == email
    ensures
      var won := window == 0 || (rows[id].sentAt.None? && WindowEmpty(rows, email, now, Micros(window)));
      ClaimSteps(rows, id, email, window, now) ==
        Quiet(if won then SetSent(rows, id, Some(now)) else rows).(log :=
          StampLog(1, if won then map[id := 0] else map[], if window == 0 then {id} else {}))
  {
    var x, s := Setup((token, hash) => false, 0), Quiet(rows);
    var sent := SetSent(rows, id, Some(now));
    assert Quiet(sent).created == s.created;
    if window > 0 {
      var begun := SendStep(x, s, Begin(0, id, email, window, now));
      assert begun == s.(sends := map[0 := Send(id, email, window, now, Began)]);
      var locked := SendStep(x, begun, Lock(0));
      assert locked == s.(sends := map[0 := Send(id, email, window, now, Locked)], locks := map[email := 0]);
      var won := rows[id].sentAt.None? && WindowEmpty(rows, email, now, Micros(window));
      var stamped := SendStep(x, locked, Stamp(0));
      assert stamped == locked.(sends := map[0 := Send(id, email, window, now, Stamped(won, 0))], log := StampLog(1, map[], {}));
      assert stamped.sends - {0} == map[] && stamped.locks - {email} == map[];
    }
  }

  /** One mail per window: after a won claim the address's window opens again exactly when it has passed. */
  lemma {:induction false} NextClaimIff(rows: Rows, id: Id, now: Instant, window: nat, later: Instant)
    requires id in rows && WindowEmpty(rows, rows[id].info.email, now, Micros(window)) && now <= later
    ensures WindowEmpty(SetSent(rows, id, Some(now)), rows[id].info.email, later, Micros(window)) <==>
      later >= now + Micros(window)
  {
    var sent := SetSent(rows, id, Some(now));
    assert id in sent && sent[id].sentAt == Some(now) && sent[id].info == rows[id].info;
  }

  datatype CodeOutcome = Accepted(id: Id) | Refused | Malformed

  class MagicLinkTokens {
    var rows: Rows

    constructor ()
      ensures rows == map[]
    {
      rows := map[];
    }

    method Create(id: Id, info: Info)
      requires id !in rows
      modifies this
      ensures rows == old(rows)[id := Row(info, None, None, None, None, None)]
    {
      rows := rows[id := Row(info, None, None, None, None, None)];
    }

    /** The first live row whose hash matches, checked one by one. */
    method FindLiveCandidate(matches: (string, Hash) -> bool, token: string, now: Instant) returns (found: Option<Id>)
      ensures found.Some? ==>
        found.value in rows && LinkLive(rows[found.value], now) && matches(token, rows[found.value].info.tokenHash)
      ensures found.None? ==>
        forall id :: id in rows && LinkLive(rows[id], now) ==> !matches(token, rows[id].info.tokenHash)
      ensures found.Some? <==> exists id :: (
        id in rows && matches(token, rows[id].info.tokenHash) &&
        rows[id].usedAt.None? && rows[id].supersededAt.None? && rows[id].info.expiresAt > now)
    {
      var candidates: set<Id> := set id: Id | id in rows && LinkLive(rows[id], now);
      while candidates != {}
        invariant forall id :: id in candidates ==> id in rows && LinkLive(rows[id], now)
        invariant forall id :: id in rows && LinkLive(rows[id], now) && id !in candidates ==>
          !matches(token, rows[id].info.tokenHash)
        decreases |candidates|
      {
        var id :| id in candidates;
        if matches(token, rows[id].info.tokenHash) {
          return Some(id);
        }
        candidates := candidates - {id};
      }
      found := None;
    }

    /** Redeems if and only if some live row matches, and then marks exactly the one it returns. */
    method Consume(matches: (string, Hash) -> bool, token: string, now: Instant) returns (id: Option<Id>)
      modifies this
      ensures id.Some? <==> exists k :: (
        k in old(rows) && matches(token, old(rows)[k].info.tokenHash) &&
        old(rows)[k].usedAt.None? && old(rows)[k].supersededAt.None? && old(rows)[k].info.expiresAt > now)
      ensures id.Some? ==>
        id.value in old(rows) && matches(token, old(rows)[id.value].info.tokenHash) &&
        old(rows)[id.value].usedAt.None? && old(rows)[id.value].supersededAt.None? &&
        old(rows)[id.value].info.expiresAt > now &&
        rows == old(rows)[id.value := old(rows)[id.value].(usedAt := Some(now), via := Some(Link))]
      ensures id.None? ==> rows == old(rows)
    {
      id := FindLiveCandidate(matches, token, now);
      if id.None? {
        return;
      }
      rows := MarkUsed(rows, id.value, Link, now);
    }

    /** The newest row a code of this browser may redeem. */
    method NewestForCode(nonceHash: Hash, now: Instant) returns (found: Option<Id>)
      ensures found.Some? ==> NewestCodeRow(rows, found.value, nonceHash, now)
      ensures found.None? ==> forall id :: id in rows ==> !CodeLive(rows[id], nonceHash, now)
      ensures found.Some? <==> exists id :: (
        id in rows && rows[id].info.nonceHash == Some(nonceHash) && rows[id].sentAt.Some? &&
        rows[id].info.codeHash.Some? && rows[id].usedAt.None? && rows[id].supersededAt.None? &&
        rows[id].codeSpentAt.None? && rows[id].info.expiresAt > now)
    {
      var left := rows.Keys;
      found := None;
      while left != {}
        invariant left <= rows.Keys
        invariant found.Some? ==> found.value in rows && CodeLive(rows[found.value], nonceHash, now)
        invariant forall id :: id in rows && id !in left && CodeLive(rows[id], nonceHash, now) ==>
          found.Some? && rows[id].info.createdAt <= rows[found.value].info.createdAt
        decreases |left|
      {
        var id :| id in left;
        left := left - {id};
        if CodeLive(rows[id], nonceHash, now) &&
           (found.None? || rows[found.value].info.createdAt < rows[id].info.createdAt) {
          found := Some(id);
        }
      }
    }

    /** A malformed code changes nothing; a well-formed one spends the newest row's only attempt before
        it is checked; a wrong one leaves everything else, so its link stays as redeemable as it was. */
    method ConsumeCode(matches: (string, Hash) -> bool, nonceHash: Hash, typed: string, now: Instant)
      returns (outcome: CodeOutcome)
      modifies this
      ensures outcome == Malformed <==> !WellFormed(Normalize(typed))
      ensures outcome == Malformed ==> rows == old(rows)
      ensures outcome.Accepted? ==>
        NewestCodeRow(old(rows), outcome.id, nonceHash, now) &&
        matches(Normalize(typed), old(rows)[outcome.id].info.codeHash.value) &&
        rows == MarkUsed(SpendCode(old(rows), outcome.id, now), outcome.id, Code, now)
      ensures outcome == Refused ==>
        (rows == old(rows) && forall id :: id in rows ==> !CodeLive(rows[id], nonceHash, now)) ||
        (exists id :: NewestCodeRow(old(rows), id, nonceHash, now) &&
           !matches(Normalize(typed), old(rows)[id].info.codeHash.value) &&
           rows == SpendCode(old(rows), id, now))
      ensures outcome.Accepted? ==>
        var row := old(rows)[outcome.id];
        row.info.nonceHash == Some(nonceHash) && row.sentAt.Some? && row.info.codeHash.Some? &&
        row.usedAt.None? && row.supersededAt.None? && row.codeSpentAt.None? && row.info.expiresAt > now &&
        rows == old(rows)[outcome.id := row.(codeSpentAt := Some(now), usedAt := Some(now), via := Some(Code))]
      ensures outcome == Refused && rows == old(rows) ==> forall id :: id in rows ==>
        !(rows[id].info.nonceHash == Some(nonceHash) && rows[id].sentAt.Some? && rows[id].info.codeHash.Some? &&
          rows[id].usedAt.None? && rows[id].supersededAt.None? && rows[id].codeSpentAt.None? &&
          rows[id].info.expiresAt > now)
      ensures outcome == Refused ==> forall id :: id in rows ==>
        id in old(rows) && LinkLive(rows[id], now) == LinkLive(old(rows)[id], now)
    {
      var guess := Normalize(typed);
      if !WellFormed(guess) {
        return Malformed;
      }
      var found := NewestForCode(nonceHash, now);
      if found.None? {
        return Refused;
      }
      var id := found.value;
      rows := SpendCode(rows, id, now);
      if !matches(guess, rows[id].info.codeHash.value) {
        return Refused;
      }
      rows := MarkUsed(rows, id, Code, now);
      outcome := Accepted(id);
    }

    /** With nobody else in the transaction: won if and only if the row is unsent and no mail of the
        address falls inside the window; a window of zero always stamps. */
    method ClaimSend(id: Id, email: Email, window: nat, now: Instant) returns (won: bool)
      modifies this
      ensures won ==
        (window == 0 ||
         (id in old(rows) && old(rows)[id].sentAt.None? && WindowEmpty(old(rows), email, now, Micros(window))))
      ensures rows == if won then SetSent(old(rows), id, Some(now)) else old(rows)
      ensures 0 < window <= 0x7FFF_FFFF ==>
        (won <==> (
          id in old(rows) && old(rows)[id].sentAt.None? &&
          forall k :: k in old(rows) && old(rows)[k].info.email == email && old(rows)[k].sentAt.Some? ==>
            old(rows)[k].sentAt.value + window * 1_000_000 <= now))
      ensures forall k :: k in rows <==> k in old(rows)
      ensures forall k :: k in rows ==>
        rows[k] == (if won && k == id then old(rows)[k].(sentAt := Some(now)) else old(rows)[k])
      ensures id in old(rows) && old(rows)[id].info.email == email ==>
        rows == ClaimSteps(old(rows), id, email, window, now).rows
    {
      if id in rows && rows[id].info.email == email {
        ClaimIsItsSteps(rows, id, email, window, now);
      }
      won := window == 0 || (id in rows && rows[id].sentAt.None? && WindowEmpty(rows, email, now, Micros(window)));
      if won {
        rows := SetSent(rows, id, Some(now));
      }
    }

    /** A send that failed gives its window back: the same claim at the same instant would win again. */
    method ReleaseSend(id: Id)
      modifies this
      ensures rows == SetSent(old(rows), id, None)
    {
      rows := SetSent(rows, id, None);
    }

    /** Exactly the older, current, unused rows of the address that came from the form are marked, and
        counted; a keeper that is not there retires nothing. */
    method SupersedeOthers(email: Email, keep: Id, now: Instant) returns (retired: nat)
      modifies this
      ensures rows == Supersede(old(rows), email, keep, now)
      ensures rows.Keys == old(rows).Keys
      ensures forall id :: id in rows ==>
        (rows[id] == old(rows)[id] || rows[id] == old(rows)[id].(supersededAt := Some(now))) &&
        (rows[id] != old(rows)[id] <==>
           keep in rows && id != keep && rows[id].info.email == email && rows[id].info.nonceHash.Some? &&
           rows[id].usedAt.None? && old(rows)[id].supersededAt.None? &&
           (rows[id].info.createdAt < rows[keep].info.createdAt ||
            (rows[id].info.createdAt == rows[keep].info.createdAt && id < keep)))
      ensures retired == |set id | id in rows && rows[id] != old(rows)[id]|
    {
      var retiring := set id | id in rows && Retires(rows, email, keep, id);
      retired := |retiring|;
      rows := Supersede(rows, email, keep, now);
      assert retiring == set id | id in rows && rows[id] != old(rows)[id];
    }

    /** Exactly the rows expired for longer than the retention are deleted, and counted. */
    method PurgeOld(now: Instant) returns (purged: nat)
      modifies this
      ensures rows == Purge(old(rows), now)
      ensures forall id :: id in rows <==> id in old(rows) && old(rows)[id].info.expiresAt + 7 * 86_400_000_000 >= now
      ensures forall id :: id in rows ==> rows[id] == old(rows)[id]
      ensures purged == |old(rows).Keys - rows.Keys|
    {
      var left := Purge(rows, now);
      assert rows.Keys == left.Keys + (rows.Keys - left.Keys);
      purged := |rows| - |left|;
      rows := left;
    }
  }

  /** Racing senders' statements commute: in either order the same rows end up superseded. */
  lemma {:induction false} SupersedesCommute(
    rows: Rows, email: Email, a: Id, b: Id, now: Instant, later: Instant, id: Id)
    requires id in rows
    ensures
      var ab := Supersede(Supersede(rows, email, a, now), email, b, later);
      var ba := Supersede(Supersede(rows, email, b, now), email, a, later);
      id in ab && id in ba && (ab[id].supersededAt.Some? <==> ba[id].supersededAt.Some?)
  {
    SupersedeRow(rows, email, a, now, id, b);
    SupersedeRow(rows, email, b, now, id, a);
  }

  /** Marking rows changes neither who retires whom nor anybody's age. */
  lemma {:induction false} SupersedeRow(rows: Rows, email: Email, keep: Id, now: Instant, id: Id, other: Id)
    requires id in rows
    ensures
      var t := Supersede(rows, email, keep, now);
      id in t && (t[id].supersededAt.Some? <==> rows[id].supersededAt.Some? || Retires(rows, email, keep, id)) &&
      (Retires(t, email, other, id) <==> Retires(rows, email, other, id) && !Retires(rows, email, keep, id))
  {
  }

  /** Purging decides nothing but how long a record is kept: at that time or later it takes no row away from
      either route. */
  lemma {:induction false} PurgeKeepsRedeemable(rows: Rows, now: Instant, later: Instant, id: Id, nonceHash: Hash)
    requires now <= later
    ensures id in Purge(rows, now) && LinkLive(rows[id], later) <==> id in rows && LinkLive(rows[id], later)
    ensures NewestCodeRow(Purge(rows, now), id, nonceHash, later) <==> NewestCodeRow(rows, id, nonceHash, later)
  {
    var kept := Purge(rows, now);
    forall k | k in rows && rows[k].info.expiresAt > later ensures k in kept && kept[k] == rows[k] {
    }
    if NewestCodeRow(kept, id, nonceHash, later) {
      forall other | other in rows && CodeLive(rows[other], nonceHash, later)
        ensures rows[other].info.createdAt <= rows[id].info.createdAt
      {
        assert kept[other] == rows[other];
      }
    }
  }

  /** The statements of the interleaved protocol do to the rows what the table's own calls do: a new row is
      blank, and superseding and purging are the same. */
  lemma {:induction false} StatementsOnRows(s: State, id: Id, info: Info, email: Email, keep: Id, now: Instant)
    ensures id !in s.created ==>
      KeepStep(s, Create(id, info)).rows == s.rows[id := Row(info, None, None, None, None, None)]
    ensures (keep in s.created ==> s.created[keep].email == email) ==>
      KeepStep(s, Retire(email, keep, now)).rows == Supersede(s.rows, email, keep, now)
    ensures KeepStep(s, Sweep(now)).rows == Purge(s.rows, now)
  {
  }

  /** A released row is unsent, and one stamped without a window sent then. */
  lemma {:induction false} StampsOnRows(x: Setup, s: State, id: Id, now: Instant)
    ensures SendStep(x, s, Release(id)).rows ==
      if id in s.rows then s.rows[id := s.rows[id].(sentAt := None)] else s.rows
    ensures SendStep(x, s, StampAlways(id, now)).rows ==
      if id in s.rows then s.rows[id := s.rows[id].(sentAt := Some(now))] else s.rows
  {
  }

  /** Giving the window back undoes the claim: the row and the window are as before it. */
  lemma {:induction false} ReleaseUndoesClaim(rows: Rows, id: Id, email: Email, now: Instant, window: nat)
    requires id in rows && rows[id].sentAt.None? && WindowEmpty(rows, email, now, Micros(window))
    ensures SetSent(SetSent(rows, id, Some(now)), id, None) == rows
    ensures rows[id].info.email == email && window > 0 ==>
      !WindowEmpty(SetSent(rows, id, Some(now)), email, now, Micros(window))
  {
    var sent := SetSent(rows, id, Some(now));
    assert rows[id].(sentAt := Some(now)).(sentAt := None) == rows[id];
    assert id in sent && sent[id].sentAt == Some(now);
  }
}
