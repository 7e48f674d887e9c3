/** Account deletion and recovery, as serial transactions over the tables they touch. */
module Account {
  import opened Common

  type UserId = nat
  type OrgId = nat
  type Instant = int

  datatype Role = Owner | Member

  /** What both transactions read and write of the database. Rows of sessions, tokens and pending
      invitations are keyed by their own id and name their user. */
  datatype Tables = Tables(
    users: map<UserId, Option<Instant>>,         // deleted_at
    orgs: map<OrgId, Option<Instant>>,           // deleted_at
    members: map<(OrgId, UserId), Role>,
    sessions: map<nat, UserId>,
    tokens: map<nat, UserId>,
    invitations: map<nat, UserId>)               // pending ones, by inviter

  datatype Refusal = OwnsSharedOrgs(blocking: set<OrgId>) | AlreadyDeleted

  predicate IsOwner(db: Tables, o: OrgId, u: UserId) {
    (o, u) in db.members && db.members[(o, u)] == Owner
  }

  predicate Live(db: Tables, o: OrgId) { o in db.orgs && db.orgs[o].None? }

  predicate Active(db: Tables, u: UserId) { u in db.users && db.users[u].None? }

  predicate HasOthers(db: Tables, o: OrgId, u: UserId) {
    exists m :: m in db.members.Keys && m.0 == o && m.1 != u
  }

  function Owners(db: Tables, o: OrgId): set<UserId> {
    set m | m in db.members.Keys && m.0 == o && db.members[m] == Owner :: m.1
  }

  /** Live orgs whose only owner is `u`. */
  function Candidates(db: Tables, u: UserId): set<OrgId> {
    set o | o in db.orgs.Keys && db.orgs[o].None? && IsOwner(db, o, u) && |Owners(db, o)| == 1
  }

  function Blocking(db: Tables, u: UserId): set<OrgId> {
    set o | o in Candidates(db, u) && HasOthers(db, o, u)
  }

  function NotOf(rows: map<nat, UserId>, u: UserId): map<nat, UserId> {
    map k | k in rows && rows[k] != u :: rows[k]
  }

  function Tombstoned(orgs: map<OrgId, Option<Instant>>, solo: set<OrgId>, now: Instant): map<OrgId, Option<Instant>> {
    map o | o in orgs :: if o in solo then Some(now) else orgs[o]
  }

  /** The memberships left: of `u`, only those of the orgs tombstoned with the account. */
  function Kept(members: map<(OrgId, UserId), Role>, solo: set<OrgId>, u: UserId): map<(OrgId, UserId), Role> {
    map m | m in members && !(m.1 == u && m.0 !in solo) :: members[m]
  }

  /** The state a deletion at `now` that tombstones `solo` leaves: the user and these orgs stamped
      alike, their other memberships and everything signed in or pending of theirs gone. */
  function DeletedWith(db: Tables, solo: set<OrgId>, u: UserId, now: Instant): Tables {
    Tables(
      db.users[u := Some(now)],
      Tombstoned(db.orgs, solo, now),
      Kept(db.members, solo, u),
      NotOf(db.sessions, u), NotOf(db.tokens, u), NotOf(db.invitations, u))
  }

  /** With transactions serial the orgs tombstoned are the candidates themselves. */
  function Deleted(db: Tables, u: UserId, now: Instant): Tables {
    DeletedWith(db, Candidates(db, u), u, now)
  }

  /** What the write re-checks of an org: live, and nobody else a member. */
  predicate Alone(db: Tables, o: OrgId, u: UserId) { Live(db, o) && !HasOthers(db, o, u) }

  /** Orgs a recovery lifts: owned by `u`, tombstoned, and not before the account was. */
  function Recoverable(db: Tables, u: UserId): set<OrgId>
    requires u in db.users && db.users[u].Some?
  {
    set o | o in db.orgs.Keys && IsOwner(db, o, u) && db.orgs[o].Some? && db.orgs[o].value >= db.users[u].value
  }

  function Restored(db: Tables, u: UserId): Tables
    requires u in db.users && db.users[u].Some?
  {
    var back := Recoverable(db, u);
    db.(users := db.users[u := None],
        orgs := map o | o in db.orgs :: if o in back then None else db.orgs[o])
  }

  /** Among the rows of the org's members, this user is an owner and nobody else is. */
  ghost predicate OnlyOwner(members: map<(OrgId, UserId), Role>, o: OrgId, u: UserId) {
    (o, u) in members && members[(o, u)] == Owner &&
    forall m :: m in members && m.0 == o && members[m] == Owner ==> m.1 == u
  }

  lemma {:induction false} CandidateRows(db: Tables, u: UserId)
    ensures forall o :: o in Candidates(db, u) <==> o in db.orgs && db.orgs[o].None? && OnlyOwner(db.members, o, u)
  {
    forall o ensures o in Candidates(db, u) <==> o in db.orgs && db.orgs[o].None? && OnlyOwner(db.members, o, u) {
      if o in db.orgs && IsOwner(db, o, u) {
        OneOwner(db, o, u);
      }
    }
  }

  lemma {:induction false} OneOwner(db: Tables, o: OrgId, u: UserId)
    requires IsOwner(db, o, u)
    ensures |Owners(db, o)| == 1 <==> OnlyOwner(db.members, o, u)
  {
    var owners := Owners(db, o);
    assert (o, u) in db.members.Keys && u in owners;
    var rest := owners - {u};
    assert owners == rest + {u} && |owners| == |rest| + 1;
    if OnlyOwner(db.members, o, u) {
      assert rest == {};
    } else {
      var m :| m in db.members && m.0 == o && db.members[m] == Owner && m.1 != u;
      assert m in db.members.Keys && m.1 in rest;
    }
  }

  lemma {:induction false} BlockingRows(db: Tables, u: UserId)
    ensures Blocking(db, u) == {} <==>
      forall o :: o in db.orgs && db.orgs[o].None? && OnlyOwner(db.members, o, u) ==>
        forall m :: m in db.members && m.0 == o ==> m.1 == u
  {
    CandidateRows(db, u);
    forall o | o in Candidates(db, u)
      ensures o in Blocking(db, u) <==> !(forall m :: m in db.members && m.0 == o ==> m.1 == u)
    {
      assert forall m :: m in db.members <==> m in db.members.Keys;
    }
  }

  // ----- The transactions -----

  class Database {
    var users: map<UserId, Option<Instant>>
    var orgs: map<OrgId, Option<Instant>>
    var members: map<(OrgId, UserId), Role>
    var sessions: map<nat, UserId>
    var tokens: map<nat, UserId>
    var invitations: map<nat, UserId>

    function State(): Tables
      reads this
    {
      Tables(users, orgs, members, sessions, tokens, invitations)
    }

    constructor (db: Tables)
      ensures State() == db
    {
      users, orgs, members := db.users, db.orgs, db.members;
      sessions, tokens, invitations := db.sessions, db.tokens, db.invitations;
    }

    method Rollback(db: Tables)
      modifies this
      ensures State() == db
    {
      users, orgs, members := db.users, db.orgs, db.members;
      sessions, tokens, invitations := db.sessions, db.tokens, db.invitations;
    }

    /** One `UPDATE` per org, which re-checks it; stops at the first that does not pass. */
    method TombstoneAll(solo: set<OrgId>, u: UserId, now: Instant) returns (missed: Option<OrgId>)
      modifies this`orgs
      ensures missed.Some? ==> missed.value in solo && !Alone(old(State()), missed.value, u)
      ensures missed.None? ==> forall o :: o in solo ==> Alone(old(State()), o, u)
      ensures missed.None? ==> orgs == Tombstoned(old(orgs), solo, now)
    {
      var left := solo;
      while left != {}
        invariant left <= solo
        invariant forall o :: o in solo - left ==> Alone(old(State()), o, u)
        invariant orgs == Tombstoned(old(orgs), solo - left, now)
        decreases |left|
      {
        var o: OrgId :| o in left;
        assert Alone(State(), o, u) == Alone(old(State()), o, u);
        if !Alone(State(), o, u) {
          return Some(o);
        }
        orgs := orgs[o := Some(now)];
        left := left - {o};
      }
      assert solo - left == solo;
      missed := None;
    }

    /** The writes of a deletion, for orgs found earlier, whatever has happened to them since: all of
        them, if and only if the account is active and every org still has no other member; else none. */
    method DeleteWith(solo: set<OrgId>, u: UserId, now: Instant) returns (outcome: Result<Instant, Refusal>)
      modifies this
      ensures outcome.Ok? <==> Active(old(State()), u) && forall o :: o in solo ==> Alone(old(State()), o, u)
      ensures outcome.Ok? ==> State() == DeletedWith(old(State()), solo, u, now) && outcome.value == now
      ensures outcome.Err? ==> State() == old(State())
      ensures outcome == Err(AlreadyDeleted) <==> !Active(old(State()), u)
      ensures outcome.Ok? ==>
        (forall k :: k in sessions <==> k in old(sessions) && old(sessions)[k] != u) &&
        (forall k :: k in sessions ==> sessions[k] == old(sessions)[k]) &&
        (forall k :: k in tokens <==> k in old(tokens) && old(tokens)[k] != u) &&
        (forall k :: k in tokens ==> tokens[k] == old(tokens)[k]) &&
        (forall k :: k in invitations <==> k in old(invitations) && old(invitations)[k] != u) &&
        (forall k :: k in invitations ==> invitations[k] == old(invitations)[k])
      ensures outcome.Ok? ==>
        u in users && users[u] == Some(now) && users == old(users)[u := Some(now)] &&
        (forall o :: o in orgs <==> o in old(orgs)) &&
        (forall o :: o in orgs ==> orgs[o] == if o in solo then Some(now) else old(orgs)[o]) &&
        (forall m :: m in members <==> m in old(members) && (m.1 != u || m.0 in solo)) &&
        (forall m :: m in members ==> members[m] == old(members)[m])
      ensures outcome.Err? && outcome.error.OwnsSharedOrgs? ==>
        exists o :: o in solo && !Alone(old(State()), o, u) && outcome.error.blocking == {o}
    {
      var before := State();
      if !Active(State(), u) {
        return Err(AlreadyDeleted);
      }
      users := users[u := Some(now)];
      assert forall o :: Alone(State(), o, u) == Alone(before, o, u);
      var missed := TombstoneAll(solo, u, now);
      if missed.Some? {
        Rollback(before);
        return Err(OwnsSharedOrgs({missed.value}));
      }
      DropRows(solo, u);
      outcome := Ok(now);
    }

    method DropRows(solo: set<OrgId>, u: UserId)
      modifies this`sessions, this`tokens, this`invitations, this`members
      ensures sessions == NotOf(old(sessions), u) && tokens == NotOf(old(tokens), u)
      ensures invitations == NotOf(old(invitations), u) && members == Kept(old(members), solo, u)
    {
      sessions := NotOf(sessions, u);
      tokens := NotOf(tokens, u);
      invitations := NotOf(invitations, u);
      members := Kept(members, solo, u);
    }

    /** Refused, and then nothing changes, if and only if a solo-owned org has other members or the
        account is not active; otherwise everything is deleted as promised. */
    method RequestDeletion(u: UserId, now: Instant) returns (outcome: Result<Instant, Refusal>)
      modifies this
      ensures outcome.Ok? <==> Blocking(old(State()), u) == {} && Active(old(State()), u)
      ensures outcome.Ok? <==>
        u in old(users) && old(users)[u].None? &&
        forall o :: o in old(orgs) && old(orgs)[o].None? && OnlyOwner(old(members), o, u) ==>
          forall m :: m in old(members) && m.0 == o ==> m.1 == u
      ensures outcome.Ok? ==>
        (forall k :: k in sessions <==> k in old(sessions) && old(sessions)[k] != u) &&
        (forall k :: k in sessions ==> sessions[k] == old(sessions)[k]) &&
        (forall k :: k in tokens <==> k in old(tokens) && old(tokens)[k] != u) &&
        (forall k :: k in tokens ==> tokens[k] == old(tokens)[k]) &&
        (forall k :: k in invitations <==> k in old(invitations) && old(invitations)[k] != u) &&
        (forall k :: k in invitations ==> invitations[k] == old(invitations)[k])
      ensures outcome.Ok? ==>
        users == old(users)[u := Some(now)] &&
        (forall o :: o in orgs <==> o in old(orgs)) &&
        (forall o :: o in orgs ==>
           orgs[o] == (if old(orgs)[o].None? && OnlyOwner(old(members), o, u) then Some(now) else old(orgs)[o])) &&
        (forall m :: m in members <==>
           m in old(members) &&
           (m.1 != u || (m.0 in old(orgs) && old(orgs)[m.0].None? && OnlyOwner(old(members), m.0, u)))) &&
        (forall m :: m in members ==> members[m] == old(members)[m])
      ensures outcome.Ok? ==> State() == Deleted(old(State()), u, now) && outcome.value == now
      ensures outcome.Err? ==> State() == old(State())
      ensures outcome == Err(AlreadyDeleted) ==> !Active(old(State()), u)
      ensures outcome.Err? && outcome.error.OwnsSharedOrgs? ==>
        outcome.error.blocking == Blocking(old(State()), u) != {}
    {
      var solo := Candidates(State(), u);
      var blocking := Blocking(State(), u);
      CandidateRows(State(), u);
      BlockingRows(State(), u);
      if blocking != {} {
        return Err(OwnsSharedOrgs(blocking));
      }
      assert forall o :: o in solo ==> Alone(State(), o, u) by {
        forall o | o in solo ensures Alone(State(), o, u) {
          assert o !in blocking;
        }
      }
      outcome := DeleteWith(solo, u, now);
    }

    /** Nothing happens to an account that is not deleted. */
    method RestoreAccount(u: UserId) returns (revived: Option<set<OrgId>>)
      modifies this
      ensures revived.Some? <==> u in old(users) && old(users)[u].Some?
      ensures revived.Some? ==>
        State() == Restored(old(State()), u) && revived.value == Recoverable(old(State()), u)
      ensures revived.None? ==> State() == old(State())
      ensures revived.Some? ==>
        users == old(users)[u := None] && members == old(members) && sessions == old(sessions) &&
        tokens == old(tokens) && invitations == old(invitations) &&
        (forall o :: o in orgs <==> o in old(orgs)) &&
        (forall o :: o in orgs ==>
           var lifted := (o, u) in members && members[(o, u)] == Owner && old(orgs)[o].Some? &&
             old(orgs)[o].value >= old(users)[u].value;
           orgs[o] == (if lifted then None else old(orgs)[o]))
    {
      if u !in users || users[u].None? {
        return None;
      }
      var back := Recoverable(State(), u);
      users := users[u := None];
      orgs := map o | o in orgs :: if o in back then None else orgs[o];
      revived := Some(back);
    }
  }

  // ----- Deletion and recovery undo each other, as far as they do -----

  /** After a deletion and its recovery the users and the orgs are exactly as before, including every org
      that was tombstoned earlier, whatever its time stamp. What does not come back is the user's membership
      of every org but those tombstoned with the account, also of orgs they had tombstoned earlier on their
      own, and their sessions, tokens and invitations. */
  lemma {:induction false} DeleteThenRestore(db: Tables, u: UserId, now: Instant)
    requires Active(db, u) && Blocking(db, u) == {}
    ensures
      var after := Restored(Deleted(db, u, now), u);
      Recoverable(Deleted(db, u, now), u) == Candidates(db, u) &&
      after.users == db.users && after.orgs == db.orgs &&
      (forall m :: m in after.members <==>
         m in db.members &&
         (m.1 != u || (m.0 in db.orgs && db.orgs[m.0].None? && OnlyOwner(db.members, m.0, u)))) &&
      (forall m :: m in after.members ==> after.members[m] == db.members[m]) &&
      after.sessions == NotOf(db.sessions, u) && after.tokens == NotOf(db.tokens, u) &&
      after.invitations == NotOf(db.invitations, u) &&
      (forall k :: k in after.sessions <==> k in db.sessions && db.sessions[k] != u) &&
      (forall k :: k in after.sessions ==> after.sessions[k] == db.sessions[k]) &&
      (forall k :: k in after.tokens <==> k in db.tokens && db.tokens[k] != u) &&
      (forall k :: k in after.tokens ==> after.tokens[k] == db.tokens[k]) &&
      (forall k :: k in after.invitations <==> k in db.invitations && db.invitations[k] != u) &&
      (forall k :: k in after.invitations ==> after.invitations[k] == db.invitations[k])
  {
    var gone := Deleted(db, u, now);
    CandidateRows(db, u);
    assert Recoverable(gone, u) == Candidates(db, u) by {
      forall o | o in Recoverable(gone, u) ensures o in Candidates(db, u) {
        assert (o, u) in gone.members;
      }
      forall o | o in Candidates(db, u) ensures o in Recoverable(gone, u) {
        assert (o, u) in gone.members;
      }
    }
    assert Restored(gone, u).users == db.users;
    assert Restored(gone, u).orgs == db.orgs;
  }

  /** An org that was not tombstoned with the account loses just this user. */
  lemma {:induction false} OwnersLeft(db: Tables, u: UserId, now: Instant, o: OrgId)
    requires o !in Candidates(db, u)
    ensures Owners(Restored(Deleted(db, u, now), u), o) == Owners(db, o) - {u}
  {
    var after := Restored(Deleted(db, u, now), u);
    forall v ensures v in Owners(after, o) <==> v in Owners(db, o) && v != u {
      assert v in Owners(after, o) <==> (o, v) in after.members && after.members[(o, v)] == Owner;
      assert v in Owners(db, o) <==> (o, v) in db.members && db.members[(o, v)] == Owner;
    }
  }

  /** So an org tombstoned earlier whose only owner deletes and recovers the account is left without any
      owner, still tombstoned. */
  lemma {:induction false} EarlierOrgLosesOwner(db: Tables, u: UserId, now: Instant, o: OrgId)
    requires Active(db, u) && Blocking(db, u) == {}
    requires o in db.orgs && db.orgs[o].Some? && Owners(db, o) == {u}
    ensures
      var after := Restored(Deleted(db, u, now), u);
      Owners(after, o) == {} && o in after.orgs && after.orgs[o] == db.orgs[o]
  {
    DeleteThenRestore(db, u, now);
    OwnersLeft(db, u, now, o);
  }

  // ----- Every live org has an active owner -----

  /** A member who is deleted is the only member, and the owner, of a tombstoned org. */
  ghost predicate DeletedAlone(db: Tables) {
    forall m :: m in db.members && !Active(db, m.1) ==>
      m.0 in db.orgs && db.orgs[m.0].Some? && db.members[m] == Owner && !HasOthers(db, m.0, m.1)
  }

  ghost predicate Owned(db: Tables) {
    forall o :: o in db.orgs && db.orgs[o].None? ==> exists u :: IsOwner(db, o, u) && Active(db, u)
  }

  lemma {:induction false} SecondOwner(db: Tables, o: OrgId, u: UserId) returns (v: UserId)
    requires IsOwner(db, o, u) && |Owners(db, o)| != 1
    ensures v != u && IsOwner(db, o, v)
  {
    assert (o, u) in db.members.Keys && u in Owners(db, o);
    var rest := Owners(db, o) - {u};
    assert Owners(db, o) == rest + {u};
    v :| v in rest;
  }

  lemma {:induction false} DeletionKeepsOwners(db: Tables, u: UserId, now: Instant)
    requires Owned(db) && DeletedAlone(db) && Active(db, u) && Blocking(db, u) == {}
    ensures Owned(Deleted(db, u, now)) && DeletedAlone(Deleted(db, u, now))
  {
    var gone := Deleted(db, u, now);
    forall o | o in gone.orgs && gone.orgs[o].None? ensures exists v :: IsOwner(gone, o, v) && Active(gone, v) {
      assert o !in Candidates(db, u);
      var v :| IsOwner(db, o, v) && Active(db, v);
      if v == u {
        v := SecondOwner(db, o, u);
        assert (o, v) in db.members && db.orgs[o].None?;
        assert Active(db, v);
      }
      assert (o, v) in gone.members && IsOwner(gone, o, v) && Active(gone, v);
    }
    forall m | m in gone.members && !Active(gone, m.1)
      ensures m.0 in gone.orgs && gone.orgs[m.0].Some? && gone.members[m] == Owner && !HasOthers(gone, m.0, m.1)
    {
      assert m in db.members;
      if m.1 == u {
        assert m.0 in Candidates(db, u) && m.0 !in Blocking(db, u);
      }
      assert !HasOthers(db, m.0, m.1);
      assert forall k :: k in gone.members ==> k in db.members;
    }
  }

  lemma {:induction false} RestoreKeepsOwners(db: Tables, u: UserId)
    requires Owned(db) && DeletedAlone(db) && u in db.users && db.users[u].Some?
    ensures Owned(Restored(db, u)) && DeletedAlone(Restored(db, u))
  {
    var back := Restored(db, u);
    forall o | o in back.orgs && back.orgs[o].None? ensures exists v :: IsOwner(back, o, v) && Active(back, v) {
      if o in Recoverable(db, u) {
        assert IsOwner(back, o, u) && Active(back, u);
      } else {
        var v :| IsOwner(db, o, v) && Active(db, v);
        assert IsOwner(back, o, v) && Active(back, v);
      }
    }
    forall m | m in back.members && !Active(back, m.1)
      ensures m.0 in back.orgs && back.orgs[m.0].Some? && back.members[m] == Owner && !HasOthers(back, m.0, m.1)
    {
      assert m in db.members && !Active(db, m.1) && m.1 != u;
      assert !HasOthers(db, m.0, m.1);
      assert (m.0, u) !in db.members.Keys;
      assert m.0 !in Recoverable(db, u);
    }
  }

  datatype Request = Delete(user: UserId, now: Instant) | Restore(user: UserId)

  /** What a request does to the tables, refused or not. */
  function Served(db: Tables, r: Request): Tables {
    match r
    case Delete(u, now) => if Active(db, u) && Blocking(db, u) == {} then Deleted(db, u, now) else db
    case Restore(u) => if u in db.users && db.users[u].Some? then Restored(db, u) else db
  }

  function ServedAll(db: Tables, requests: seq<Request>): Tables
    decreases |requests|
  {
    if requests == [] then db else ServedAll(Served(db, requests[0]), requests[1..])
  }

  /** No sequence of deletions and recoveries, of any users at any times, leaves a live org without an
      owner who can sign in. */
  lemma {:induction false} LiveOrgsStayOwned(db: Tables, requests: seq<Request>)
    requires Owned(db) && DeletedAlone(db)
    ensures Owned(ServedAll(db, requests)) && DeletedAlone(ServedAll(db, requests))
    decreases |requests|
  {
    if requests != [] {
      match requests[0] {
        case Delete(u, now) =>
          if Active(db, u) && Blocking(db, u) == {} {
            DeletionKeepsOwners(db, u, now);
          }
        case Restore(u) =>
          if u in db.users && db.users[u].Some? {
            RestoreKeepsOwners(db, u);
          }
      }
      LiveOrgsStayOwned(Served(db, requests[0]), requests[1..]);
    }
  }
}
