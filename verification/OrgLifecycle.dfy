/** Account deletion and recovery together with an owner's deletion of one org and its recovery. */
module OrgLifecycle {
  import opened Common
  import opened Account

  /** The tables, and who last deleted each org on its own: the actor of its latest `org.deleted` entry. */
  datatype World = World(db: Tables, deleter: map<OrgId, UserId>)

  datatype Request =
    | DeleteAccount(user: UserId, now: Instant)
    | RestoreAccount(user: UserId)
    | DeleteOrg(actor: UserId, org: OrgId, now: Instant)
    | RestoreOrg(actor: UserId, org: OrgId, since: Instant, fits: bool)   // since: where the grace window begins

  /** The actor has another live org to sign in to. */
  predicate HasSibling(db: Tables, u: UserId, o: OrgId) {
    exists m :: m in db.members.Keys && m.1 == u && m.0 != o && Live(db, m.0)
  }

  /** Orgs are deleted and recovered by people signed in to an active account; `fits` is the verdict on the
      plan's caps and the slug. Recovering asks who deleted the org, not who owns it. */
  predicate Granted(w: World, r: Request) {
    match r
    case DeleteAccount(u, now) => Active(w.db, u) && Blocking(w.db, u) == {}
    case RestoreAccount(u) => u in w.db.users && w.db.users[u].Some?
    case DeleteOrg(u, o, now) => Active(w.db, u) && IsOwner(w.db, o, u) && Live(w.db, o) && HasSibling(w.db, u, o)
    case RestoreOrg(u, o, since, fits) =>
      Active(w.db, u) && o in w.db.orgs && w.db.orgs[o].Some? && w.db.orgs[o].value > since &&
      o in w.deleter && w.deleter[o] == u && fits
  }

  function Serve(w: World, r: Request): World {
    if !Granted(w, r) then w
    else
      match r
      case DeleteAccount(u, now) => w.(db := Deleted(w.db, u, now))
      case RestoreAccount(u) => w.(db := Restored(w.db, u))
      case DeleteOrg(u, o, now) => World(w.db.(orgs := w.db.orgs[o := Some(now)]), w.deleter[o := u])
      case RestoreOrg(u, o, since, fits) => w.(db := w.db.(orgs := w.db.orgs[o := None]))
  }

  function ServeAll(w: World, requests: seq<Request>): World
    decreases |requests|
  {
    if requests == [] then w else ServeAll(Serve(w, requests[0]), requests[1..])
  }

  ghost predicate HasActiveOwner(db: Tables, o: OrgId) {
    exists u :: IsOwner(db, o, u) && Active(db, u)
  }

  /** Every live org has an active owner, now and after every request. */
  ghost predicate AlwaysOwned(w: World, requests: seq<Request>)
    decreases |requests|
  {
    Owned(w.db) && (requests == [] || AlwaysOwned(Serve(w, requests[0]), requests[1..]))
  }

  /** Every org recovered on its own has an active owner when it is. */
  ghost predicate OwnedWhenRestored(w: World, requests: seq<Request>)
    decreases |requests|
  {
    requests == [] ||
    ((requests[0].RestoreOrg? && Granted(w, requests[0]) ==> HasActiveOwner(w.db, requests[0].org)) &&
     OwnedWhenRestored(Serve(w, requests[0]), requests[1..]))
  }

  /** Deleting an org on one's own leaves one a member of another live org. */
  lemma {:induction false} DeleterKeepsAnOrg(w: World, u: UserId, o: OrgId, now: Instant)
    requires Serve(w, DeleteOrg(u, o, now)) != w
    ensures
      var db := Serve(w, DeleteOrg(u, o, now)).db;
      exists p :: p != o && (p, u) in db.members && p in db.orgs && db.orgs[p].None?
  {
    var m :| m in w.db.members.Keys && m.1 == u && m.0 != o && Live(w.db, m.0);
    assert (m.0, u) in w.db.members;
  }

  /** Row by row: it takes an owner signed in to an active account and a live org, stamps just that org and
      records who did it. Recovering it takes the same person, an org deleted since the grace window began and
      room in the plan, and lifts just that stamp. */
  lemma {:induction false} OrgRows(w: World, u: UserId, o: OrgId, at: Instant, fits: bool)
    ensures
      var n := Serve(w, DeleteOrg(u, o, at));
      n != w ==>
        u in w.db.users && w.db.users[u].None? && (o, u) in w.db.members && w.db.members[(o, u)] == Owner &&
        o in w.db.orgs && w.db.orgs[o].None? &&
        n == World(w.db.(orgs := w.db.orgs[o := Some(at)]), w.deleter[o := u])
    ensures
      var n := Serve(w, RestoreOrg(u, o, at, fits));
      n != w <==>
        u in w.db.users && w.db.users[u].None? && o in w.db.orgs && w.db.orgs[o].Some? && w.db.orgs[o].value > at &&
        o in w.deleter && w.deleter[o] == u && fits
    ensures
      var n := Serve(w, RestoreOrg(u, o, at, fits));
      n != w ==> n == World(w.db.(orgs := w.db.orgs[o := None]), w.deleter)
  {
    if Granted(w, RestoreOrg(u, o, at, fits)) {
      assert Serve(w, RestoreOrg(u, o, at, fits)).db.orgs[o].None?;
    }
  }

  lemma {:induction false} DeleteOrgKeepsOwners(w: World, r: Request)
    requires r.DeleteOrg? && Granted(w, r) && Owned(w.db) && DeletedAlone(w.db)
    ensures Owned(Serve(w, r).db) && DeletedAlone(Serve(w, r).db)
  {
    var db, next := w.db, Serve(w, r).db;
    forall o | o in next.orgs && next.orgs[o].None? ensures exists v :: IsOwner(next, o, v) && Active(next, v) {
      var v: UserId :| IsOwner(db, o, v) && Active(db, v);
      assert IsOwner(next, o, v) && Active(next, v);
    }
    forall m | m in next.members && !Active(next, m.1)
      ensures m.0 in next.orgs && next.orgs[m.0].Some? && next.members[m] == Owner && !HasOthers(next, m.0, m.1)
    {
      assert m in db.members && !Active(db, m.1);
      assert !HasOthers(db, m.0, m.1);
    }
  }

  /** Recovering one org keeps every live org owned if and only if that org has an active owner. */
  lemma {:induction false} RestoreOrgOwnedIff(w: World, r: Request)
    requires r.RestoreOrg? && Granted(w, r) && Owned(w.db) && DeletedAlone(w.db)
    ensures Owned(Serve(w, r).db) <==> HasActiveOwner(w.db, r.org)
    ensures HasActiveOwner(w.db, r.org) ==> DeletedAlone(Serve(w, r).db)
  {
    var db, next := w.db, Serve(w, r).db;
    assert next.members == db.members && next.users == db.users;
    forall o, v ensures IsOwner(next, o, v) == IsOwner(db, o, v) && Active(next, v) == Active(db, v) {
    }
    if Owned(next) {
      assert r.org in next.orgs && next.orgs[r.org].None?;
      var v: UserId :| IsOwner(next, r.org, v) && Active(next, v);
      assert IsOwner(db, r.org, v) && Active(db, v);
    }
    if HasActiveOwner(db, r.org) {
      var v: UserId :| IsOwner(db, r.org, v) && Active(db, v);
      forall m | m in next.members && !Active(next, m.1)
        ensures m.0 in next.orgs && next.orgs[m.0].Some? && next.members[m] == Owner && !HasOthers(next, m.0, m.1)
      {
        assert !HasOthers(db, m.0, m.1);
        assert (r.org, v) in db.members.Keys;
        assert m.0 != r.org;
      }
      forall o | o in next.orgs && next.orgs[o].None? ensures exists u :: IsOwner(next, o, u) && Active(next, u) {
        var u: UserId :| IsOwner(db, o, u) && Active(db, u);
        assert IsOwner(next, o, u) && Active(next, u);
      }
    }
  }

  lemma {:induction false} OtherRequestsKeepOwners(w: World, r: Request)
    requires Owned(w.db) && DeletedAlone(w.db) && (r.RestoreOrg? ==> !Granted(w, r))
    ensures Owned(Serve(w, r).db) && DeletedAlone(Serve(w, r).db)
  {
    if Granted(w, r) {
      match r {
        case DeleteAccount(u, now) => DeletionKeepsOwners(w.db, u, now);
        case RestoreAccount(u) => RestoreKeepsOwners(w.db, u);
        case DeleteOrg(u, o, now) => DeleteOrgKeepsOwners(w, r);
      }
    }
  }

  /** With orgs deleted and recovered on their own, too, every live org keeps an active owner throughout if
      and only if every org recovered on its own still has one at that moment, which the recovery does not
      check. */
  lemma {:induction false} AlwaysOwnedIff(w: World, requests: seq<Request>)
    requires Owned(w.db) && DeletedAlone(w.db)
    ensures AlwaysOwned(w, requests) <==> OwnedWhenRestored(w, requests)
    decreases |requests|
  {
    if requests != [] {
      var r, next := requests[0], Serve(w, requests[0]);
      if r.RestoreOrg? && Granted(w, r) {
        RestoreOrgOwnedIff(w, r);
        if HasActiveOwner(w.db, r.org) {
          AlwaysOwnedIff(next, requests[1..]);
        }
      } else {
        OtherRequestsKeepOwners(w, r);
        AlwaysOwnedIff(next, requests[1..]);
      }
    }
  }

  /** It does happen: whoever deletes an org they alone own, then their account, and recovers both, gets
      the org back live and without any owner. */
  lemma {:induction false} RecoveredOwnerless(
    w: World, u: UserId, o: OrgId, orgDeleted: Instant, accountDeleted: Instant, since: Instant)
    requires Granted(w, DeleteOrg(u, o, orgDeleted)) && Owners(w.db, o) == {u}
    requires Blocking(w.db, u) == {} && since < orgDeleted
    ensures
      var db := ServeAll(w, [DeleteOrg(u, o, orgDeleted), DeleteAccount(u, accountDeleted), RestoreAccount(u),
                             RestoreOrg(u, o, since, true)]).db;
      Live(db, o) && Owners(db, o) == {}
  {
    var r0, r1, r2, r3 := DeleteOrg(u, o, orgDeleted), DeleteAccount(u, accountDeleted), RestoreAccount(u),
      RestoreOrg(u, o, since, true);
    Serve4(w, r0, r1, r2, r3);
    var w1 := Serve(w, r0);
    FewerCandidates(w.db, u, o, orgDeleted);
    assert Granted(w1, r1);
    var w2 := Serve(w1, r1);
    var w3 := Serve(w2, r2);
    assert Granted(w2, r2);
    assert Owners(w1.db, o) == Owners(w.db, o);
    EarlierOrgLosesOwner(w1.db, u, accountDeleted, o);
    DeleteThenRestore(w1.db, u, accountDeleted);
    assert w3.db.orgs[o] == Some(orgDeleted) && w3.deleter[o] == u && Active(w3.db, u);
    var w4 := Serve(w3, r3);
    assert w4.db == w3.db.(orgs := w3.db.orgs[o := None]);
    assert Owners(w4.db, o) == Owners(w3.db, o);
  }

  /** Deleting an org takes it out of what stands in the way of a deletion, and adds nothing. */
  lemma {:induction false} FewerCandidates(db: Tables, u: UserId, o: OrgId, now: Instant)
    requires Blocking(db, u) == {}
    ensures Blocking(db.(orgs := db.orgs[o := Some(now)]), u) == {}
  {
    var next := db.(orgs := db.orgs[o := Some(now)]);
    forall p | p in Blocking(next, u) ensures p in Blocking(db, u) {
      assert p in Candidates(next, u) && Owners(next, p) == Owners(db, p);
      assert HasOthers(next, p, u) == HasOthers(db, p, u);
    }
  }

  lemma {:induction false} Serve4(w: World, a: Request, b: Request, c: Request, d: Request)
    ensures ServeAll(w, [a, b, c, d]) == Serve(Serve(Serve(Serve(w, a), b), c), d)
  {
    var w1 := Serve(w, a);
    var w2 := Serve(w1, b);
    var w3 := Serve(w2, c);
    assert [a, b, c, d][1..] == [b, c, d] && [b, c, d][1..] == [c, d] && [c, d][1..] == [d] && [d][1..] == [];
    assert ServeAll(w3, [d]) == Serve(w3, d);
    assert ServeAll(w2, [c, d]) == ServeAll(w3, [d]);
    assert ServeAll(w1, [b, c, d]) == ServeAll(w2, [c, d]);
  }
}
