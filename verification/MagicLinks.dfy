/** The magic-link token table. Every SQL statement is one atomic step on the rows; the statements of
    concurrent calls interleave freely, and each reads a clock of its own. */
module MagicLinks {
  import opened Common
  import opened MagicCodes

  type Id = nat
  type TaskId = nat
  type Email = string          // already case-folded, as the column compares it
  type Hash = string
  type Instant = int           // microseconds

  datatype Via = Link | Code

  /** The columns no statement rewrites. */
  datatype Info = Info(
    email: Email, createdAt: Instant, expiresAt: Instant,
    tokenHash: Hash, codeHash: Option<Hash>, nonceHash: Option<Hash>)

  datatype Row = Row(
    info: Info,
    usedAt: Option<Instant>, via: Option<Via>, codeSpentAt: Option<Instant>,
    sentAt: Option<Instant>, supersededAt: Option<Instant>)

  type Rows = map<Id, Row>

  // ----- Statements -----

  predicate LinkLive(row: Row, now: Instant) {
    row.usedAt.None? && row.supersededAt.None? && row.info.expiresAt > now
  }

  predicate CodeLive(row: Row, nonceHash: Hash, now: Instant) {
    row.info.nonceHash == Some(nonceHash) && row.usedAt.None? && row.supersededAt.None? &&
    row.codeSpentAt.None? && row.sentAt.Some? && row.info.codeHash.Some? && row.info.expiresAt > now
  }

  /** The newest row the code lookup may return. */
  predicate NewestCodeRow(rows: Rows, id: Id, nonceHash: Hash, now: Instant) {
    id in rows && CodeLive(rows[id], nonceHash, now) &&
    forall other :: other in rows && CodeLive(rows[other], nonceHash, now) ==>
      rows[other].info.createdAt <= rows[id].info.createdAt
  }

  predicate Unused(rows: Rows, id: Id) { id in rows && rows[id].usedAt.None? }

  predicate Unspent(rows: Rows, id: Id) { id in rows && rows[id].codeSpentAt.None? }

  function MarkUsed(rows: Rows, id: Id, via: Via, now: Instant): Rows {
    if Unused(rows, id) then rows[id := rows[id].(usedAt := Some(now), via := Some(via))] else rows
  }

  function SpendCode(rows: Rows, id: Id, now: Instant): Rows {
    if Unspent(rows, id) then rows[id := rows[id].(codeSpentAt := Some(now))] else rows
  }

  function SetSent(rows: Rows, id: Id, at: Option<Instant>): Rows {
    if id in rows then rows[id := rows[id].(sentAt := at)] else rows
  }

  /** The send window of the address is empty as `now` sees it. */
  predicate WindowEmpty(rows: Rows, email: Email, now: Instant, window: nat) {
    forall id :: id in rows && rows[id].info.email == email && rows[id].sentAt.Some? ==>
      rows[id].sentAt.value <= now - window
  }

  /** `(created_at, id)`, compared as a pair. */
  predicate Older(a: Info, aId: Id, b: Info, bId: Id) {
    a.createdAt < b.createdAt || (a.createdAt == b.createdAt && aId < bId)
  }

  predicate Retires(rows: Rows, email: Email, keep: Id, id: Id)
    requires id in rows
  {
    var row := rows[id];
    row.info.email == email && id != keep && row.info.nonceHash.Some? &&
    row.usedAt.None? && row.supersededAt.None? &&
    keep in rows && Older(row.info, id, rows[keep].info, keep)
  }

  function Supersede(rows: Rows, email: Email, keep: Id, now: Instant): Rows {
    map id | id in rows ::
      if Retires(rows, email, keep, id) then rows[id].(supersededAt := Some(now)) else rows[id]
  }

  const RETENTION: Instant := 7 * 24 * 3600 * 1_000_000

  function Purge(rows: Rows, now: Instant): Rows {
    map id | id in rows && !(rows[id].info.expiresAt < now - RETENTION) :: rows[id]
  }

  // ----- State -----

  /** Where a `consume` or `consume_code` call is between its statements. */
  datatype Attempt =
    | LinkFound(id: Id, at: Instant, nonce: Option<Hash>)
    | CodeFound(id: Id, at: Instant, nonce: Option<Hash>, guess: string)
    | GuessClaimed(id: Id, at: Instant, nonce: Option<Hash>, guess: string, hash: Hash)
    | GuessRight(id: Id, at: Instant, nonce: Option<Hash>)

  datatype Redemption = Redemption(id: Id, via: Via, found: Instant, nonce: Option<Hash>)

  datatype Verdict = Verdict(id: Id, right: bool)

  /** Where a `claim_send` transaction is: begun, holding the address lock, or with its update made. */
  datatype Stage = Began | Locked | Stamped(won: bool, nth: nat)

  datatype Send = Send(id: Id, email: Email, window: nat, started: Instant, stage: Stage)

  /** The update statements of claims in the order they took effect: how many there were, which one each
      row's latest stamp is from, and the rows whose stamp asked for no window. */
  datatype StampLog = StampLog(count: nat, nth: map<Id, nat>, unthrottled: set<Id>)

  datatype State = State(
    rows: Rows,
    created: map<Id, Info>,           // every row ever inserted
    attempts: map<TaskId, Attempt>,
    redemptions: seq<Redemption>,     // successful consumes, in order
    verdicts: seq<Verdict>,           // code verifications ever run, in order
    retiredBy: map<Id, Id>,           // row -> the newer row it gave way to
    sends: map<TaskId, Send>,
    locks: map<Email, TaskId>,
    log: StampLog)

  const EMPTY := State(map[], map[], map[], [], [], map[], map[], map[], StampLog(0, map[], {}))

  /** `matches` stands for the argon2 check of a token or code; every `claim_send` that asks for a window
      at all asks for at least `window` seconds. */
  datatype Setup = Setup(matches: (string, Hash) -> bool, window: nat)

  /** A window in seconds as the statement binds it, in microseconds. */
  function Micros(seconds: nat): nat { Min(seconds, 0x7FFF_FFFF) * 1_000_000 }

  // ----- Redeeming -----

  datatype Redeem =
    | FindLink(task: TaskId, id: Id, token: string, now: Instant)
    | MarkLink(task: TaskId, now: Instant)
    | FindCode(task: TaskId, id: Id, nonceHash: Hash, typed: string, now: Instant)
    | ClaimGuess(task: TaskId, now: Instant)
    | CheckGuess(task: TaskId)
    | MarkCode(task: TaskId, now: Instant)

  predicate CanRedeem(x: Setup, s: State, a: Redeem) {
    match a
    case FindLink(t, id, token, now) =>
      t !in s.attempts && id in s.rows && LinkLive(s.rows[id], now) && x.matches(token, s.rows[id].info.tokenHash)
    case MarkLink(t, now) => t in s.attempts && s.attempts[t].LinkFound?
    case FindCode(t, id, nonceHash, typed, now) =>
      t !in s.attempts && WellFormed(Normalize(typed)) && NewestCodeRow(s.rows, id, nonceHash, now)
    case ClaimGuess(t, now) => t in s.attempts && s.attempts[t].CodeFound?
    case CheckGuess(t) => t in s.attempts && s.attempts[t].GuessClaimed?
    case MarkCode(t, now) => t in s.attempts && s.attempts[t].GuessRight?
  }

  function Mark(s: State, t: TaskId, via: Via, now: Instant): State
    requires t in s.attempts
  {
    var c := s.attempts[t];
    s.(rows := MarkUsed(s.rows, c.id, via, now),
       attempts := s.attempts - {t},
       redemptions :=
         if Unused(s.rows, c.id) then s.redemptions + [Redemption(c.id, via, c.at, c.nonce)] else s.redemptions)
  }

  /** A row without a code hash is refused after its attempt is spent. */
  function Claimed(s: State, t: TaskId, now: Instant): State
    requires t in s.attempts && s.attempts[t].CodeFound?
  {
    var c := s.attempts[t];
    s.(rows := SpendCode(s.rows, c.id, now),
       attempts :=
         if Unspent(s.rows, c.id) && s.rows[c.id].info.codeHash.Some?
         then s.attempts[t := GuessClaimed(c.id, c.at, c.nonce, c.guess, s.rows[c.id].info.codeHash.value)]
         else s.attempts - {t})
  }

  function Checked(x: Setup, s: State, t: TaskId): State
    requires t in s.attempts && s.attempts[t].GuessClaimed?
  {
    var c := s.attempts[t];
    var right := x.matches(c.guess, c.hash);
    s.(attempts := if right then s.attempts[t := GuessRight(c.id, c.at, c.nonce)] else s.attempts - {t},
       verdicts := s.verdicts + [Verdict(c.id, right)])
  }

  function RedeemStep(x: Setup, s: State, a: Redeem): State {
    if !CanRedeem(x, s, a) then s
    else
      match a
      case FindLink(t, id, token, now) => s.(attempts := s.attempts[t := LinkFound(id, now, None)])
      case MarkLink(t, now) => Mark(s, t, Link, now)
      case FindCode(t, id, nonceHash, typed, now) =>
        s.(attempts := s.attempts[t := CodeFound(id, now, Some(nonceHash), Normalize(typed))])
      case ClaimGuess(t, now) => Claimed(s, t, now)
      case CheckGuess(t) => Checked(x, s, t)
      case MarkCode(t, now) => Mark(s, t, Code, now)
  }

  // ----- Sending -----

  datatype Sending =
    | Begin(task: TaskId, id: Id, email: Email, window: nat, now: Instant)
    | Lock(task: TaskId)
    | Stamp(task: TaskId)
    | Commit(task: TaskId)
    | Abort(task: TaskId)
    | Release(id: Id)
    | StampAlways(id: Id, now: Instant)      // claim_send with a window of zero

  predicate Holds(s: State, t: TaskId) {
    t in s.sends && s.sends[t].email in s.locks && s.locks[s.sends[t].email] == t
  }

  /** Callers pass the address the row was created with. */
  predicate CanSend(x: Setup, s: State, a: Sending) {
    match a
    case Begin(t, id, email, window, now) =>
      t !in s.sends && window > 0 && window >= x.window && id in s.created && s.created[id].email == email
    case Lock(t) => t in s.sends && s.sends[t].stage.Began? && s.sends[t].email !in s.locks
    case Stamp(t) => t in s.sends && s.sends[t].stage.Locked?
    case Commit(t) => t in s.sends && s.sends[t].stage.Stamped?
    case Abort(t) => t in s.sends
    case Release(id) => true
    case StampAlways(id, now) => true
  }

  function Unlocked(s: State, t: TaskId): State
    requires t in s.sends
  {
    s.(sends := s.sends - {t}, locks := if Holds(s, t) then s.locks - {s.sends[t].email} else s.locks)
  }

  /** The won update becomes visible. */
  function Committed(s: State, c: Send): State
    requires c.stage.Stamped?
  {
    s.(rows := SetSent(s.rows, c.id, Some(c.started)),
       log := s.log.(nth := s.log.nth[c.id := c.stage.nth], unthrottled := s.log.unthrottled - {c.id}))
  }

  function Released(s: State, id: Id): State {
    s.(rows := SetSent(s.rows, id, None), log := s.log.(unthrottled := s.log.unthrottled - {id}))
  }

  function StampedAlways(s: State, id: Id, now: Instant): State {
    s.(rows := SetSent(s.rows, id, Some(now)),
       log := StampLog(s.log.count + 1, s.log.nth[id := s.log.count], s.log.unthrottled + {id}))
  }

  function SendStep(x: Setup, s: State, a: Sending): State {
    if !CanSend(x, s, a) then s
    else
      match a
      case Begin(t, id, email, window, now) => s.(sends := s.sends[t := Send(id, email, window, now, Began)])
      case Lock(t) => s.(sends := s.sends[t := s.sends[t].(stage := Locked)], locks := s.locks[s.sends[t].email := t])
      case Stamp(t) =>
        var c := s.sends[t];
        var won := c.id in s.rows && s.rows[c.id].sentAt.None? && WindowEmpty(s.rows, c.email, c.started, Micros(c.window));
        s.(sends := s.sends[t := c.(stage := Stamped(won, s.log.count))], log := s.log.(count := s.log.count + 1))
      case Commit(t) =>
        var c := s.sends[t];
        Unlocked(if c.stage.won then Committed(s, c) else s, t)
      case Abort(t) => Unlocked(s, t)
      case Release(id) => Released(s, id)
      case StampAlways(id, now) => StampedAlways(s, id, now)
  }

  // ----- Creating, superseding, purging -----

  datatype Keeping =
    | Create(id: Id, info: Info)
    | Retire(email: Email, keep: Id, now: Instant)
    | Sweep(now: Instant)

  /** Ids are never reused; `supersede_others` is called with the keeper's own address. */
  predicate CanKeep(s: State, a: Keeping) {
    match a
    case Create(id, info) => id !in s.created
    case Retire(email, keep, now) => keep in s.created ==> s.created[keep].email == email
    case Sweep(now) => true
  }

  function KeepStep(s: State, a: Keeping): State {
    if !CanKeep(s, a) then s
    else
      match a
      case Create(id, info) =>
        s.(rows := s.rows[id := Row(info, None, None, None, None, None)], created := s.created[id := info])
      case Retire(email, keep, now) =>
        s.(rows := Supersede(s.rows, email, keep, now),
           retiredBy := s.retiredBy + map id | id in s.rows && Retires(s.rows, email, keep, id) :: keep)
      case Sweep(now) => s.(rows := Purge(s.rows, now))
  }

  datatype Action = Redeems(redeem: Redeem) | Sends(send: Sending) | Keeps(keep: Keeping)

  /** One statement of any call; a statement that does not apply changes nothing. */
  function Step(x: Setup, s: State, a: Action): State {
    match a
    case Redeems(b) => RedeemStep(x, s, b)
    case Sends(b) => SendStep(x, s, b)
    case Keeps(b) => KeepStep(s, b)
  }

  /** Any interleaving is a sequence of statements. */
  function Run(x: Setup, s: State, acts: seq<Action>): State
    decreases |acts|
  {
    if acts == [] then s else Run(x, Step(x, s, acts[0]), acts[1..])
  }

  // ----- Rows -----

  /** Rows are rows ever inserted, with the columns they were inserted with. */
  ghost predicate RowsKnown(s: State) {
    forall id :: id in s.rows ==> id in s.created && s.rows[id].info == s.created[id]
  }

  /** Redeeming rewrites only the columns of use. */
  ghost predicate OnlyUse(a: Rows, b: Rows) {
    b.Keys == a.Keys && forall id :: id in a ==>
      b[id] == a[id].(usedAt := b[id].usedAt, via := b[id].via, codeSpentAt := b[id].codeSpentAt)
  }

  /** Sending rewrites only when the mail went out. */
  ghost predicate OnlySent(a: Rows, b: Rows) {
    b.Keys == a.Keys && forall id :: id in a ==> b[id] == a[id].(sentAt := b[id].sentAt)
  }

  lemma RedeemFrame(x: Setup, s: State, a: Redeem)
    ensures
      var t := RedeemStep(x, s, a);
      OnlyUse(s.rows, t.rows) && t.created == s.created && t.retiredBy == s.retiredBy &&
      t.sends == s.sends && t.locks == s.locks && t.log == s.log
  {
  }

  lemma SetSentFrame(rows: Rows, id: Id, at: Option<Instant>)
    ensures OnlySent(rows, SetSent(rows, id, at))
  {
  }

  lemma {:induction false} SendFrame(x: Setup, s: State, a: Sending)
    ensures
      var t := SendStep(x, s, a);
      OnlySent(s.rows, t.rows) && t.created == s.created && t.retiredBy == s.retiredBy &&
      t.attempts == s.attempts && t.redemptions == s.redemptions && t.verdicts == s.verdicts
  {
    if CanSend(x, s, a) {
      match a {
        case Commit(t) => SetSentFrame(s.rows, s.sends[t].id, Some(s.sends[t].started));
        case Release(id) => SetSentFrame(s.rows, id, None);
        case StampAlways(id, now) => SetSentFrame(s.rows, id, Some(now));
        case _ => assert SendStep(x, s, a).rows == s.rows;
      }
    }
  }

  /** Keeping adds a blank row, marks rows superseded, or deletes rows. */
  lemma {:induction false} KeepFrame(s: State, a: Keeping)
    requires RowsKnown(s)
    ensures
      var t := KeepStep(s, a);
      RowsKnown(t) &&
      t.attempts == s.attempts && t.redemptions == s.redemptions && t.verdicts == s.verdicts &&
      t.sends == s.sends && t.locks == s.locks && t.log == s.log &&
      (forall id :: id in s.created ==> id in t.created && t.created[id] == s.created[id]) &&
      (forall id :: id in t.rows && id in s.created ==>
         id in s.rows && t.rows[id] == s.rows[id].(supersededAt := t.rows[id].supersededAt)) &&
      (forall id :: id in t.rows && id !in s.created ==> t.rows[id] == Row(t.created[id], None, None, None, None, None))
  {
    KeepRows(s, a);
  }

  lemma KeepRows(s: State, a: Keeping)
    requires RowsKnown(s)
    ensures
      var t := KeepStep(s, a);
      (forall id :: id in t.rows && id in s.created ==>
         id in s.rows && t.rows[id] == s.rows[id].(supersededAt := t.rows[id].supersededAt)) &&
      (forall id :: id in t.rows && id !in s.created ==>
         id in t.created && t.rows[id] == Row(t.created[id], None, None, None, None, None))
  {
  }

  lemma {:induction false} StepRows(x: Setup, s: State, a: Action)
    requires RowsKnown(s)
    ensures RowsKnown(Step(x, s, a))
  {
    match a {
      case Redeems(b) => RedeemFrame(x, s, b);
      case Sends(b) => SendFrame(x, s, b);
      case Keeps(b) => KeepFrame(s, b);
    }
  }

  // ----- Single redemption, single guess -----

  ghost predicate HasVerdict(s: State, id: Id, right: bool) { Verdict(id, right) in s.verdicts }

  /** Each row was redeemed at most once, by either route, found while unexpired; its row, if still
      kept, says so; a row is marked used exactly with the route that redeemed it. */
  ghost predicate RedeemedOnce(s: State) {
    (forall i, j :: 0 <= i < j < |s.redemptions| ==> s.redemptions[i].id != s.redemptions[j].id) &&
    (forall k :: 0 <= k < |s.redemptions| ==>
       var r := s.redemptions[k];
       r.id in s.created && r.found < s.created[r.id].expiresAt &&
       (r.id in s.rows ==> s.rows[r.id].usedAt.Some? && s.rows[r.id].via == Some(r.via)) &&
       (r.via == Code ==> HasVerdict(s, r.id, true))) &&
    (forall id :: id in s.rows ==> (s.rows[id].usedAt.Some? <==> s.rows[id].via.Some?)) &&
    (forall id :: id in s.rows && s.rows[id].usedAt.Some? ==>
       exists k :: 0 <= k < |s.redemptions| && s.redemptions[k].id == id)
  }

  ghost predicate Judged(s: State, id: Id) {
    exists k :: 0 <= k < |s.verdicts| && s.verdicts[k].id == id
  }

  ghost predicate Spent(s: State, id: Id) {
    id in s.created && (id in s.rows ==> s.rows[id].codeSpentAt.Some?)
  }

  /** At most one code verification per row ever runs: whoever holds a claimed guess holds the row's
      only one. */
  ghost predicate GuessedOnce(s: State) {
    (forall i, j :: 0 <= i < j < |s.verdicts| ==> s.verdicts[i].id != s.verdicts[j].id) &&
    (forall k :: 0 <= k < |s.verdicts| ==> Spent(s, s.verdicts[k].id)) &&
    (forall t :: t in s.attempts && s.attempts[t].GuessClaimed? ==>
       Spent(s, s.attempts[t].id) && !Judged(s, s.attempts[t].id)) &&
    (forall t, u :: t in s.attempts && u in s.attempts && t != u ==>
       !(s.attempts[t].GuessClaimed? && s.attempts[u].GuessClaimed? && s.attempts[t].id == s.attempts[u].id))
  }

  /** Calls in flight work on known rows they found unexpired. */
  ghost predicate AttemptsSound(s: State) {
    (forall t :: t in s.attempts ==>
       s.attempts[t].id in s.created && s.attempts[t].at < s.created[s.attempts[t].id].expiresAt) &&
    (forall t :: t in s.attempts && s.attempts[t].GuessRight? ==> HasVerdict(s, s.attempts[t].id, true))
  }

  ghost predicate Redeeming(s: State) {
    RowsKnown(s) && RedeemedOnce(s) && GuessedOnce(s) && AttemptsSound(s)
  }

  /** A statement of the other two protocols leaves every call in flight, and the columns redemption
      works on, as they were; rows come fresh or go. */
  ghost predicate RedeemUntouched(s: State, t: State) {
    t.attempts == s.attempts && t.redemptions == s.redemptions && t.verdicts == s.verdicts &&
    (forall id :: id in s.created ==> id in t.created && t.created[id] == s.created[id]) &&
    (forall id :: id in t.rows && id in s.created ==>
       id in s.rows && t.rows[id].usedAt == s.rows[id].usedAt && t.rows[id].via == s.rows[id].via &&
       t.rows[id].codeSpentAt == s.rows[id].codeSpentAt) &&
    (forall id :: id in t.rows && id !in s.created ==>
       t.rows[id].usedAt.None? && t.rows[id].via.None? && t.rows[id].codeSpentAt.None?)
  }

  lemma {:induction false} OthersLeaveRedeeming(x: Setup, s: State, a: Action)
    requires RowsKnown(s) && !a.Redeems?
    ensures RedeemUntouched(s, Step(x, s, a))
  {
    match a {
      case Sends(b) => SendFrame(x, s, b);
      case Keeps(b) => KeepFrame(s, b);
    }
  }

  lemma {:induction false} UntouchedStaysRedeeming(s: State, t: State)
    requires Redeeming(s) && RowsKnown(t) && RedeemUntouched(s, t)
    ensures Redeeming(t)
  {
    UntouchedRedeemedOnce(s, t);
    UntouchedGuessedOnce(s, t);
  }

  lemma {:induction false} UntouchedRedeemedOnce(s: State, t: State)
    requires Redeeming(s) && RowsKnown(t) && RedeemUntouched(s, t)
    ensures RedeemedOnce(t)
  {
    forall k | 0 <= k < |t.redemptions| ensures
      var r := t.redemptions[k];
      r.id in t.created && r.found < t.created[r.id].expiresAt &&
      (r.id in t.rows ==> t.rows[r.id].usedAt.Some? && t.rows[r.id].via == Some(r.via)) &&
      (r.via == Code ==> HasVerdict(t, r.id, true))
    {
      assert HasVerdict(t, s.redemptions[k].id, true) == HasVerdict(s, s.redemptions[k].id, true);
    }
  }

  lemma {:induction false} UntouchedGuessedOnce(s: State, t: State)
    requires Redeeming(s) && RowsKnown(t) && RedeemUntouched(s, t)
    ensures GuessedOnce(t)
  {
    forall id ensures (Spent(s, id) ==> Spent(t, id)) && (Judged(t, id) ==> Judged(s, id)) {
    }
  }

  /** Whatever claims no guess and runs no verification keeps them single. */
  lemma {:induction false} GuessesKept(s: State, n: State)
    requires GuessedOnce(s) && n.verdicts == s.verdicts
    requires forall id :: Spent(s, id) ==> Spent(n, id)
    requires forall t :: t in n.attempts && n.attempts[t].GuessClaimed? ==>
      t in s.attempts && s.attempts[t] == n.attempts[t]
    ensures GuessedOnce(n)
  {
  }

  lemma {:induction false} MarkRedeems(x: Setup, s: State, t: TaskId, via: Via, now: Instant)
    requires Redeeming(s) && t in s.attempts
    requires if via == Link then s.attempts[t].LinkFound? else s.attempts[t].GuessRight?
    ensures Redeeming(Mark(s, t, via, now))
  {
    var n := Mark(s, t, via, now);
    assert RowsKnown(n) && AttemptsSound(n);
    assert GuessedOnce(n) by {
      GuessesKept(s, n);
    }
    MarkRedeemsOnce(s, t, via, now);
  }

  lemma {:induction false} MarkRedeemsOnce(s: State, t: TaskId, via: Via, now: Instant)
    requires RowsKnown(s) && RedeemedOnce(s) && AttemptsSound(s) && t in s.attempts
    requires if via == Link then s.attempts[t].LinkFound? else s.attempts[t].GuessRight?
    ensures RedeemedOnce(Mark(s, t, via, now))
  {
    var c, n := s.attempts[t], Mark(s, t, via, now);
    if Unused(s.rows, c.id) {
      assert n.redemptions[|s.redemptions|].id == c.id;
      forall id | id in n.rows && n.rows[id].usedAt.Some?
        ensures exists k :: 0 <= k < |n.redemptions| && n.redemptions[k].id == id
      {
        if id != c.id {
          var k :| 0 <= k < |s.redemptions| && s.redemptions[k].id == id;
          assert n.redemptions[k].id == id;
        }
      }
    }
  }

  lemma {:induction false} ClaimRedeems(x: Setup, s: State, t: TaskId, now: Instant)
    requires Redeeming(s) && t in s.attempts && s.attempts[t].CodeFound?
    ensures Redeeming(Claimed(s, t, now))
  {
    var n := Claimed(s, t, now);
    assert RowsKnown(n) && RedeemedOnce(n) && AttemptsSound(n);
    assert GuessedOnce(n) by {
      ClaimSpends(s, t, now);
    }
  }

  /** The claim goes to one caller: the row's attempt was not spent before. */
  lemma {:induction false} ClaimSpends(s: State, t: TaskId, now: Instant)
    requires RowsKnown(s) && GuessedOnce(s) && t in s.attempts && s.attempts[t].CodeFound?
    ensures GuessedOnce(Claimed(s, t, now))
  {
    var c, n := s.attempts[t], Claimed(s, t, now);
    forall id | Spent(s, id) ensures Spent(n, id) {
    }
    forall id | !Judged(s, id) ensures !Judged(n, id) {
    }
    if Unspent(s.rows, c.id) {
      assert !Spent(s, c.id);
      assert !Judged(s, c.id);
    }
  }

  lemma {:induction false} CheckRedeems(x: Setup, s: State, t: TaskId)
    requires Redeeming(s) && t in s.attempts && s.attempts[t].GuessClaimed?
    ensures Redeeming(Checked(x, s, t))
  {
    var c, n := s.attempts[t], Checked(x, s, t);
    assert s.verdicts <= n.verdicts;
    forall id, right | HasVerdict(s, id, right) ensures HasVerdict(n, id, right) {
      var k :| 0 <= k < |s.verdicts| && s.verdicts[k] == Verdict(id, right);
      assert n.verdicts[k] == Verdict(id, right);
    }
    assert n.verdicts[|s.verdicts|] == Verdict(c.id, x.matches(c.guess, c.hash));
    assert RowsKnown(n) && RedeemedOnce(n) && AttemptsSound(n);
    assert GuessedOnce(n) by {
      assert !Judged(s, c.id);
      forall id | Spent(s, id) ensures Spent(n, id) {
      }
      forall id | !Judged(s, id) && id != c.id ensures !Judged(n, id) {
      }
    }
  }

  lemma {:induction false} StepRedeeming(x: Setup, s: State, a: Action)
    requires Redeeming(s)
    ensures Redeeming(Step(x, s, a))
  {
    StepRows(x, s, a);
    if !a.Redeems? {
      OthersLeaveRedeeming(x, s, a);
      UntouchedStaysRedeeming(s, Step(x, s, a));
    } else if CanRedeem(x, s, a.redeem) {
      match a.redeem {
        case MarkLink(t, now) => MarkRedeems(x, s, t, Link, now);
        case MarkCode(t, now) => MarkRedeems(x, s, t, Code, now);
        case ClaimGuess(t, now) => ClaimRedeems(x, s, t, now);
        case CheckGuess(t) => CheckRedeems(x, s, t);
        case _ => FindRedeems(x, s, a.redeem);
      }
    }
  }

  lemma {:induction false} FindRedeems(x: Setup, s: State, a: Redeem)
    requires Redeeming(s) && CanRedeem(x, s, a) && (a.FindLink? || a.FindCode?)
    ensures Redeeming(RedeemStep(x, s, a))
  {
    var n := RedeemStep(x, s, a);
    assert n.rows == s.rows && n.created == s.created && n.verdicts == s.verdicts && n.redemptions == s.redemptions;
    assert RedeemedOnce(n) by {
      forall id, right ensures HasVerdict(s, id, right) == HasVerdict(n, id, right) {
      }
    }
    assert GuessedOnce(n) by {
      GuessesKept(s, n);
    }
  }

  lemma {:induction false} RedeemingAlong(x: Setup, s: State, acts: seq<Action>)
    requires Redeeming(s)
    ensures Redeeming(Run(x, s, acts))
    decreases |acts|
  {
    if acts != [] {
      StepRedeeming(x, s, acts[0]);
      RedeemingAlong(x, Step(x, s, acts[0]), acts[1..]);
    }
  }

  /** In every reachable state, whatever the interleaving of the two routes with everything else: a row
      is redeemed at most once, by one route, found before it expired; it is marked used exactly with
      that route; at most one code verification per row ever ran; and only a right guess redeems by
      code. */
  lemma {:induction false} SingleRedemption(x: Setup, acts: seq<Action>)
    ensures
      var s := Run(x, EMPTY, acts);
      (forall i, j :: 0 <= i < j < |s.redemptions| ==> s.redemptions[i].id != s.redemptions[j].id) &&
      (forall i, j :: 0 <= i < j < |s.verdicts| ==> s.verdicts[i].id != s.verdicts[j].id) &&
      (forall k :: 0 <= k < |s.redemptions| ==>
         var r := s.redemptions[k];
         r.id in s.created && r.found < s.created[r.id].expiresAt &&
         (r.id in s.rows ==> s.rows[r.id].via == Some(r.via)) &&
         (r.via == Code ==> HasVerdict(s, r.id, true) && !HasVerdict(s, r.id, false))) &&
      (forall id :: id in s.rows ==>
         (s.rows[id].usedAt.Some? <==> s.rows[id].via.Some?) &&
         (s.rows[id].usedAt.Some? <==> exists k :: 0 <= k < |s.redemptions| && s.redemptions[k].id == id))
  {
    RedeemingAlong(x, EMPTY, acts);
    var s := Run(x, EMPTY, acts);
    forall id | HasVerdict(s, id, true) ensures !HasVerdict(s, id, false) {
      OneVerdict(s, id);
    }
  }

  lemma {:induction false} OneVerdict(s: State, id: Id)
    requires GuessedOnce(s)
    ensures !(HasVerdict(s, id, true) && HasVerdict(s, id, false))
  {
  }

  /** A live link redeems when nothing comes between its two statements. */
  lemma {:induction false} LinkRedeems(x: Setup, s: State, id: Id, t: TaskId, token: string, now: Instant)
    requires id in s.rows && t !in s.attempts && LinkLive(s.rows[id], now) && x.matches(token, s.rows[id].info.tokenHash)
    ensures
      var found := RedeemStep(x, s, FindLink(t, id, token, now));
      RedeemStep(x, found, MarkLink(t, now)).redemptions == s.redemptions + [Redemption(id, Link, now, None)]
  {
    var found := RedeemStep(x, s, FindLink(t, id, token, now));
    assert found == s.(attempts := s.attempts[t := LinkFound(id, now, None)]);
    assert RedeemStep(x, found, MarkLink(t, now)) == Mark(found, t, Link, now);
  }

  /** A wrong guess never uses the row up: after it the row is unused, or its link was used; and while
      it is unused, current and unexpired, the link in the same mail still redeems it. */
  lemma {:induction false} WrongGuessLeavesLink(x: Setup, s: State, acts: seq<Action>, id: Id)
    requires s == Run(x, EMPTY, acts)
    requires HasVerdict(s, id, false) && id in s.rows
    ensures s.rows[id].usedAt.None? || s.rows[id].via == Some(Link)
    ensures forall t, token, now ::
      t !in s.attempts && LinkLive(s.rows[id], now) && x.matches(token, s.rows[id].info.tokenHash) ==>
        RedeemStep(x, RedeemStep(x, s, FindLink(t, id, token, now)), MarkLink(t, now)).redemptions ==
          s.redemptions + [Redemption(id, Link, now, None)]
  {
    RedeemingAlong(x, EMPTY, acts);
    OneVerdict(s, id);
    forall t, token, now |
      t !in s.attempts && LinkLive(s.rows[id], now) && x.matches(token, s.rows[id].info.tokenHash)
      ensures RedeemStep(x, RedeemStep(x, s, FindLink(t, id, token, now)), MarkLink(t, now)).redemptions ==
                s.redemptions + [Redemption(id, Link, now, None)]
    {
      LinkRedeems(x, s, id, t, token, now);
    }
  }

  /** A run of five statements, step by step. */
  lemma {:induction false} Run5(x: Setup, s: State, a: Action, b: Action, c: Action, d: Action, e: Action)
    ensures Run(x, s, [a, b, c, d, e]) == Step(x, Step(x, Step(x, Step(x, Step(x, s, a), b), c), d), e)
  {
    var s1 := Step(x, s, a);
    var s2 := Step(x, s1, b);
    var s3 := Step(x, s2, c);
    var s4 := Step(x, s3, d);
    assert [a, b, c, d, e][1..] == [b, c, d, e] && [b, c, d, e][1..] == [c, d, e];
    assert [c, d, e][1..] == [d, e] && [d, e][1..] == [e] && [e][1..] == [];
    assert Run(x, s4, [e]) == Step(x, s4, e);
    assert Run(x, s3, [d, e]) == Run(x, s4, [e]);
    assert Run(x, s2, [c, d, e]) == Run(x, s3, [d, e]);
    assert Run(x, s1, [b, c, d, e]) == Run(x, s2, [c, d, e]);
  }

  function Blank(created: Instant, nonce: string): Info {
    Info("a", created, 1_000, "h", Some("c"), Some(nonce))
  }

  /** The mark-used statement looks at nothing but `used_at`: a link found before its row was
      superseded is redeemed after it. */
  lemma {:induction false} SupersededMidway(x: Setup) returns (acts: seq<Action>)
    requires x.matches("token", "h")
    ensures
      var s := Run(x, EMPTY, acts);
      s.redemptions == [Redemption(1, Link, 10, None)] && 1 in s.rows && s.rows[1].supersededAt == Some(20)
  {
    var create1, create2 := Keeps(Create(1, Blank(1, "n"))), Keeps(Create(2, Blank(2, "n")));
    var find, retire, mark := Redeems(FindLink(0, 1, "token", 10)), Keeps(Retire("a", 2, 20)), Redeems(MarkLink(0, 30));
    acts := [create1, create2, find, retire, mark];
    Run5(x, EMPTY, create1, create2, find, retire, mark);
    var row1 := Row(Blank(1, "n"), None, None, None, None, None);
    var s2 := Step(x, Step(x, EMPTY, create1), create2);
    assert 1 in s2.rows && s2.rows[1] == row1 && 2 in s2.rows && s2.rows[2].info == Blank(2, "n");
    var s3 := Step(x, s2, find);
    assert s3 == s2.(attempts := map[0 := LinkFound(1, 10, None)]);
    var s4 := Step(x, s3, retire);
    assert Retires(s3.rows, "a", 2, 1);
    assert 1 in s4.rows && s4.rows[1] == row1.(supersededAt := Some(20)) && s4.attempts == s3.attempts;
    assert Step(x, s4, mark) == Mark(s4, 0, Link, 30);
  }
}
