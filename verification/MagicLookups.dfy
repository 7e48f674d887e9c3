/** Which rows a code redeems: its browser's own, once mailed. */
module MagicLookups {
  import opened Common
  import opened MagicCodes
  import opened MagicLinks

  /** The row was created with this nonce, and a mail of it has been marked sent. */
  predicate OwnMailed(s: State, id: Id, nonce: Option<Hash>) {
    id in s.created && nonce.Some? && s.created[id].nonceHash == nonce && id in s.log.nth
  }

  ghost predicate LookedUp(s: State) {
    RowsKnown(s) &&
    (forall id :: id in s.rows && s.rows[id].sentAt.Some? ==> id in s.log.nth) &&
    (forall t :: t in s.attempts && !s.attempts[t].LinkFound? ==>
       OwnMailed(s, s.attempts[t].id, s.attempts[t].nonce)) &&
    (forall k :: 0 <= k < |s.redemptions| && s.redemptions[k].via == Code ==>
       OwnMailed(s, s.redemptions[k].id, s.redemptions[k].nonce))
  }

  lemma {:induction false} RedeemLookedUp(x: Setup, s: State, a: Redeem)
    requires LookedUp(s)
    ensures LookedUp(RedeemStep(x, s, a))
  {
    var t := RedeemStep(x, s, a);
    RedeemFrame(x, s, a);
    StepRows(x, s, Redeems(a));
    forall id, nonce | OwnMailed(s, id, nonce) ensures OwnMailed(t, id, nonce) {
    }
    if CanRedeem(x, s, a) && a.FindCode? {
      assert s.rows[a.id].info.nonceHash == Some(a.nonceHash) && s.rows[a.id].sentAt.Some?;
      assert OwnMailed(t, a.id, Some(a.nonceHash));
    }
  }

  lemma {:induction false} SendLookedUp(x: Setup, s: State, a: Sending)
    requires LookedUp(s)
    ensures LookedUp(SendStep(x, s, a))
  {
    var t := SendStep(x, s, a);
    SendFrame(x, s, a);
    StepRows(x, s, Sends(a));
    StampsAreLogged(x, s, a);
    forall id, nonce | OwnMailed(s, id, nonce) ensures OwnMailed(t, id, nonce) {
    }
  }

  /** No row is marked sent but by a logged stamp, and the log forgets none. */
  lemma {:induction false} StampsAreLogged(x: Setup, s: State, a: Sending)
    requires forall id :: id in s.rows && s.rows[id].sentAt.Some? ==> id in s.log.nth
    ensures
      var t := SendStep(x, s, a);
      (forall id :: id in t.rows && t.rows[id].sentAt.Some? ==> id in t.log.nth) &&
      (forall id :: id in s.log.nth ==> id in t.log.nth)
  {
  }

  lemma {:induction false} StepLookedUp(x: Setup, s: State, a: Action)
    requires LookedUp(s)
    ensures LookedUp(Step(x, s, a))
  {
    match a {
      case Redeems(b) => RedeemLookedUp(x, s, b);
      case Sends(b) => SendLookedUp(x, s, b);
      case Keeps(b) =>
        KeepFrame(s, b);
        forall id, nonce | OwnMailed(s, id, nonce) ensures OwnMailed(Step(x, s, a), id, nonce) {
        }
    }
  }

  lemma {:induction false} LookedUpAlong(x: Setup, s: State, acts: seq<Action>)
    requires LookedUp(s)
    ensures LookedUp(Run(x, s, acts))
    decreases |acts|
  {
    if acts != [] {
      StepLookedUp(x, s, acts[0]);
      LookedUpAlong(x, Step(x, s, acts[0]), acts[1..]);
    }
  }

  /** In every reachable state each redemption by code, and each call on its way to one, was looked up with the
      nonce its row was created with, after a mail of the row was marked sent; so a code redeems in no browser
      but the one that asked for it, and a row made without a nonce by no code. */
  lemma {:induction false} CodesRedeemAtHome(x: Setup, acts: seq<Action>)
    ensures
      var s := Run(x, EMPTY, acts);
      (forall k :: 0 <= k < |s.redemptions| && s.redemptions[k].via == Code ==>
         var r := s.redemptions[k];
         r.id in s.created && r.nonce.Some? && s.created[r.id].nonceHash == r.nonce && r.id in s.log.nth) &&
      (forall t :: t in s.attempts && !s.attempts[t].LinkFound? ==>
         var c := s.attempts[t];
         c.id in s.created && c.nonce.Some? && s.created[c.id].nonceHash == c.nonce && c.id in s.log.nth)
  {
    LookedUpAlong(x, EMPTY, acts);
    var s := Run(x, EMPTY, acts);
    forall k | 0 <= k < |s.redemptions| && s.redemptions[k].via == Code
      ensures OwnMailed(s, s.redemptions[k].id, s.redemptions[k].nonce)
    {
    }
  }

  /** The lookup itself, column by column: the row of this browser, mailed, unused, current, its guess and its
      time not spent, and none newer like it. */
  lemma {:induction false} LookupColumns(
    x: Setup, s: State, t: TaskId, id: Id, nonceHash: Hash, typed: string, now: Instant)
    requires CanRedeem(x, s, FindCode(t, id, nonceHash, typed, now))
    ensures |Normalize(typed)| == 6 && forall k :: 0 <= k < 6 ==> Normalize(typed)[k] in CODE_ALPHABET
    ensures
      id in s.rows &&
      var row := s.rows[id];
      row.info.nonceHash == Some(nonceHash) && row.sentAt.Some? && row.info.codeHash.Some? && row.usedAt.None? &&
      row.supersededAt.None? && row.codeSpentAt.None? && row.info.expiresAt > now &&
      forall k :: k in s.rows && s.rows[k].info.nonceHash == Some(nonceHash) && s.rows[k].sentAt.Some? &&
                  s.rows[k].info.codeHash.Some? && s.rows[k].usedAt.None? && s.rows[k].supersededAt.None? &&
                  s.rows[k].codeSpentAt.None? && s.rows[k].info.expiresAt > now ==>
        s.rows[k].info.createdAt <= row.info.createdAt
  {
    WellFormedIff(Normalize(typed));
  }

  /** What is no code finds no row, spends nothing and changes nothing. */
  lemma {:induction false} MalformedChangesNothing(
    x: Setup, s: State, t: TaskId, id: Id, nonceHash: Hash, typed: string, now: Instant)
    requires |Normalize(typed)| != 6 || exists k :: 0 <= k < 6 && Normalize(typed)[k] !in CODE_ALPHABET
    ensures RedeemStep(x, s, FindCode(t, id, nonceHash, typed, now)) == s
  {
    WellFormedIff(Normalize(typed));
  }

  /** And the lookup of a link: a row whose hash the token matches, unused, current and unexpired. */
  lemma {:induction false} LinkColumns(x: Setup, s: State, t: TaskId, id: Id, token: string, now: Instant)
    ensures RedeemStep(x, s, FindLink(t, id, token, now)) != s ==>
      id in s.rows && x.matches(token, s.rows[id].info.tokenHash) && s.rows[id].usedAt.None? &&
      s.rows[id].supersededAt.None? && s.rows[id].info.expiresAt > now
  {
  }
}
