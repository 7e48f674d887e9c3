# Verified core of the uptime monitor

A Dafny model of the parts of the monitor where a small mistake costs a lost check, a reused login or a
leaked secret, with proofs of what those parts promise. Objects whose methods change fields are classes,
loops are loops, and each such method is proved equal to a function of its inputs and of the old state.
The functions are then the subject of the lemmas. Concurrent code is cut where another task can run: every
lock section, atomic operation, poll or SQL statement is one atomic step, an interleaving is any sequence
of steps, and the theorems hold after every sequence.

| files | what they cover |
|---|---|
| `RegionSlots`, `Routing`, `Dispatch`, `AdHocDispatch` | ad-hoc dispatch of interactive checks: queues, wake-ups, routing of results |
| `MagicCodes`, `MagicLinks`, `MagicRaces`, `MagicLookups`, `MagicSending`, `TokenTable` | the magic-link table: two redemption routes, one guess, send window, superseding |
| `Redaction`, `KeyWords`, `KeyBoundaries`, `UrlScrub`, `UrlUserinfo` | secrets and credentials rewritten out of text, URLs and flow evidence |
| `FlowRuns`, `PullCache` | the agent's buffer of flow runs and its conditional configuration pull |
| `Incidents`, `Downtime` | checks coalesced into incidents, and downtime from incidents |
| `Account`, `OrgLifecycle` | deletion and recovery of accounts, and of single organisations beside them |
| `Escalation`, `Cadence`, `TextCaps` | the escalation ladder, cadence advice, length and line caps |
| `Common`, `Strings` | wrappers, and the searching and splitting of strings |

`dafny verify dfyconfig.toml` checks the project.

## Where the code and the expectation part

Each of these is proved in both directions: a condition under which the expectation holds, for all inputs
or runs, and a failing case whenever the condition does not hold, or at a named input.

- Wake-ups: notify permits do not add up. No check is ever left beside a sleeping holder if and only if at
  most one holder claims at a time or every claim may take a whole queue (`NoLostWakeUpIff`). The
  claims in the code take 32 of at most 256, so with two agents in one region one can take a batch and
  leave a check queued while the other sleeps beside it, until the next claim or dispatch (`StrandingRun`).
- Magic links: after the lookup no statement of either route looks at `superseded_at`. A link or code found
  live redeems, whatever runs in between, if and only if nobody else redeemed the row, no sweep deleted it
  and, for a code, its one guess was free and right; the row is superseded by then if and only if a statement
  in between retired it (`LinkRedeemsIff`, `CodeRedeemsIff`, with runs in `SupersededMidway` and
  `SupersededCodeMidway`).
- Send window: after a failed claim the handler stamps without a window. Of two mails of an address the later
  one is a full window after the earlier if its own stamp asked for one, whatever the earlier did
  (`MailsKeepTheirDistance`); if it did not, it can be at any distance (`UnthrottledAtAnyDistance`).
- Organisations: deleting an account drops its membership of organisations the user alone owned and had
  deleted earlier, and the recovery of such an organisation asks who deleted it, not who owns it. Every live
  organisation keeps an active owner if and only if each one recovered on its own still has one at that
  moment (`AlwaysOwnedIff`); `RecoveredOwnerless` is the run in which it does not.
- Flow runs: the agent's buffer holds 512 runs and a batch takes all of them, while the ingest endpoint
  refuses a batch with more than 256. A refused batch returns to the buffer, so a larger backlog never
  leaves the agent again, and nor does anything after it (`WedgedForGood`, `ShipsAgainIff`, `BacklogWedges`).
- Redaction: a secret is removed from every text if and only if it is not empty, neither starts nor ends
  with `*`, and does not contain `***` (`RemovedFromEveryTextIffInert`, `NotInertSurvives`).
- URL scrubbing twice is scrubbing once unless the URL has a query or a fragment, the parser accepts it, and
  rejects its scrubbed form (`IdempotentIff`); for a parser that judges such URLs by the part before, unless
  with an empty query it accepts that part and rejects it without its userinfo (`IdempotentByHead`).
  `http://h\@y:99999/p?q` is such a URL (`BackslashLosesItsQuery`).
- URL userinfo: the parser of the URL standard skips any number of slashes and backslashes after a special
  scheme, and ends the authority at either. Stripping looks only behind `://` and ends it at `/`. It removes
  the parser's userinfo and nothing else exactly in the cases of `ClearedIff`. Of heads with userinfo and
  without backslash these are the ones with two slashes: `http:/user:pw@host/` and `http:///user:pw@host/`
  stay as they are (`SlashFamily`). With a backslash the host can be replaced: `http://h\@y/p` becomes
  `http://y/p` (`BackslashReplacesHost`).
- URL fragments: only the pairs after a fragment's first `?` are scrubbed when it has one. Every credential of
  a URL is masked if and only if its fragment had none in the clear before a `?` (`AllMaskedIff`);
  `#access_token=SECRET?b` comes back unchanged (`AccessTokenStays`).
- Incidents: a closed run of a single check has no end, which its field's documentation reserves for an
  ongoing one (`EndedIffClosedAndLong`, `LoneFailureLooksOngoing`).
- Cadence: adopting a suggestion ends the advice if and only if the median gap is over 15 seconds and its
  fraction of a second does not alone take it past a round number (`AdviceSettlesIff`,
  `TenSecondsNeverSettle`).
- Byte cap: kept if and only if the text fits or the cap is at least the three bytes of the ellipsis
  (`ByteCapExact`, `TinyCapOverflows`).

## Model

| member | source | states |
|---|---|---|
| RegionSlots.NoLostWakeUpIff | src/ad_hoc_dispatch.rs:136-184 | no reachable interleaving leaves a check queued beside an unwoken holder with nothing left to wake it, if and only if at most one holder claims at a time or every limit covers the queue cap |
| RegionSlots.StrandingRun | src/ad_hoc_dispatch.rs:146-184 | whenever that condition fails there is a concrete run that strands a check |
| RegionSlots.StepNotStranded | src/ad_hoc_dispatch.rs:136-184 | no single step of a dispatcher or holder strands a check under that condition |
| RegionSlots.Handed | src/ad_hoc_dispatch.rs:146 | a notification always reaches a registered waiter or is kept as the permit |
| RegionSlots.QueueConservedAndCounted | src/ad_hoc_dispatch.rs:74-80 | after any run the queue is within its cap, removals followed by the queue are the pushes in order, and the holder counter is the number of claims in flight |
| RegionSlots.StepConserves | src/ad_hoc_dispatch.rs:136-174 | each step keeps that order: claims and evictions take only the oldest checks left |
| RegionSlots.StepCounts | src/ad_hoc_dispatch.rs:162-185 | each step keeps the counter equal to the claims in flight, registers a waiter exactly while it sleeps, and stores no permit beside a waiter |
| Routing.ExactlyOnceRouting | src/ad_hoc_dispatch.rs:123-197 | after any interleaving of registrations, expiry, abandons and completes, at most one complete per check returns a meta, it is the dispatched one, and a delivered report is the one given to that complete |
| Routing.CompletedFields | src/ad_hoc_dispatch.rs:129-133 | in every reachable state a completion carries the kind, the org and the target of the check dispatched under its id |
| Routing.OutcomeFinal | src/ad_hoc_dispatch.rs:153-157 | a receiver's outcome, a report or a dropped sender, never changes again |
| Routing.AbandonedStillPersists | src/ad_hoc_dispatch.rs:150-157 | an abandoned check still in the table yields its kind, org and target to the next complete, to no other one, and nothing is ever delivered |
| Routing.DeliveredIff | src/ad_hoc_dispatch.rs:150-196 | a complete that found the sender in place delivers its own report, whatever runs between its two steps, if and only if no abandon that already held the sender takes it out in between |
| Routing.DeliveredUnlessAbandoned | src/ad_hoc_dispatch.rs:187-196 | so it always does when no abandon of that check holds the sender as the entry is removed |
| Routing.ForgottenForGood | src/ad_hoc_dispatch.rs:119-122 | once the table forgot a check no complete had reached, its request never gets a report and no complete finds it |
| Routing.StepReports | src/ad_hoc_dispatch.rs:190-196 | each step keeps every report in a sender traceable to the complete that returned the meta |
| Dispatch.TableRuns | src/ad_hoc_dispatch.rs:82-89 | in the whole dispatcher the pending table behaves as in a run of its own, so its theorems carry over |
| Dispatch.SlotRuns | src/ad_hoc_dispatch.rs:67-72 | so does every region's slot |
| Dispatch.EveryRegionSound | src/ad_hoc_dispatch.rs:108-117 | in every reachable state every region is bounded, in dispatch order, counts its claims, and strands no check if its use allows |
| Dispatch.EachCheckInOnePlace | src/ad_hoc_dispatch.rs:136-174 | every queued check is in exactly one place of one region: waiting once, claimed once or evicted once; an evicted one has no table entry |
| AdHocDispatch.RegionSlot.Drain | src/ad_hoc_dispatch.rs:168-174 | the lock section of claim is the step of the model: the oldest checks, at least one if there is one, at most the limit |
| AdHocDispatch.RegionSlot.NotifyOne | src/ad_hoc_dispatch.rs:146 | wakes the oldest waiter or stores the one permit |
| AdHocDispatch.RegionSlot.PollNotified | src/ad_hoc_dispatch.rs:175-181 | uses up the permit or registers the waiter |
| AdHocDispatch.RegionSlot.DropNotified | src/ad_hoc_dispatch.rs:180-183 | dropping the notification unregisters the waiter and forwards a wake-up it held |
| AdHocDispatch.RegionSlot.RemoveHolder | src/ad_hoc_dispatch.rs:74-80 | dropping the guard ends the claim and its count |
| AdHocDispatch.RegionSlot.ClaimChecks | src/ad_hoc_dispatch.rs:162-185 | an uninterrupted claim takes the oldest checks up to its limit, spends a permit only on an empty queue, and leaves holders and waiters as they were |
| AdHocDispatch.RegionSlot.PushEvicting | src/ad_hoc_dispatch.rs:138-145 | at the cap exactly the oldest check is evicted for the new one |
| AdHocDispatch.AdHocDispatch.RegionLive | src/ad_hoc_dispatch.rs:112-117 | a region is live if and only if its counter is positive, which, while the counter counts, means that some claim is in flight |
| AdHocDispatch.AdHocDispatch.SlotFor | src/ad_hoc_dispatch.rs:108-110 | a region's slot is made on first use, is never shared with another region's, and changes no other |
| AdHocDispatch.AdHocDispatch.RegisterWaiter | src/ad_hoc_dispatch.rs:128-135 | the first section of dispatch is the register step of the model; it leaves the check's kind, org and target in the table under its id, with a sender in place |
| AdHocDispatch.AdHocDispatch.Enqueue | src/ad_hoc_dispatch.rs:136-145 | the queue section is the queue step: other regions untouched, the evicted check's entry gone |
| AdHocDispatch.AdHocDispatch.DispatchCheck | src/ad_hoc_dispatch.rs:123-148 | an uninterrupted dispatch is its three steps in order |
| AdHocDispatch.DispatchSteps | src/ad_hoc_dispatch.rs:123-148 | those three sections are steps of the interleaved system |
| AdHocDispatch.AdHocDispatch.Abandon | src/ad_hoc_dispatch.rs:153-157 | drops the sender, keeps the entry |
| AdHocDispatch.AdHocDispatch.CompleteCheck | src/ad_hoc_dispatch.rs:190-196 | returns the entry's meta if and only if the table still has it, delivers if the sender is in place |
| MagicLinks.SingleRedemption | src/auth/magic_link.rs:198-400 | over every interleaving of the statements of both routes: a row is redeemed at most once, found unexpired, used exactly with its route, with at most one code verification ever, and by code only on a right guess |
| MagicLinks.WrongGuessLeavesLink | src/auth/magic_link.rs:336-379 | after a wrong guess the row is unused or was used by its link, and while it is live the link redeems it |
| MagicLinks.LinkRedeems | src/auth/magic_link.rs:198-216 | a live link redeems when nothing comes between its two statements |
| MagicRaces.LinkRedeemsIff | src/auth/magic_link.rs:198-216 | from any reachable state, with any other calls between its statements: a link found live redeems if and only if by then nobody redeemed the row and no sweep deleted it, and the row is superseded by then if and only if some statement in between retired it |
| MagicRaces.CodeRedeemsIff | src/auth/magic_link.rs:339-400 | the same for a code, through all three gaps: it redeems if and only if its guess was unclaimed, it is right, and the row is neither redeemed nor swept by its last statement; superseding plays no part |
| MagicRaces.RowAlong | src/auth/magic_link.rs:308-427 | along any run a row is superseded by nothing but a retiring statement and deleted by nothing but a sweep past its retention |
| MagicLookups.CodesRedeemAtHome | src/auth/magic_link.rs:344-359 | in every reachable state each redemption by code was looked up with the nonce its row was created with, after a mail of it was marked sent |
| MagicLookups.LookupColumns | src/auth/magic_link.rs:344-351 | the lookup takes a well-formed code and finds the newest row of that nonce that is mailed, unused, current, unexpired and has its guess |
| MagicLookups.MalformedChangesNothing | src/auth/magic_link.rs:340-343 | what is no code spends nothing |
| MagicLookups.LinkColumns | src/auth/magic_link.rs:163-179 | a link's lookup finds a row only if the token matches it and it is unused, current and unexpired |
| MagicRaces.RetiredCodeRedeems | src/auth/magic_link.rs:361-391 | in any state a right code whose row is retired right after its lookup redeems the superseded row |
| MagicRaces.SupersededCodeMidway | src/auth/magic_link.rs:361-391 | a reachable run in which that happens |
| MagicLinks.SupersededMidway | src/auth/magic_link.rs:202-214 | a reachable run in which a link superseded between find and mark is redeemed |
| MagicLinks.MarkRedeems | src/auth/magic_link.rs:202-215 | the guarded update elects one winner: it keeps the single-redemption invariant for either route |
| MagicLinks.ClaimRedeems | src/auth/magic_link.rs:361-375 | claiming before checking keeps at most one guess per row |
| MagicLinks.StepRedeeming | src/auth/magic_link.rs:198-427 | every statement, of redeeming, sending, superseding or purging, keeps the redemption invariant |
| MagicSending.NewestNeverRetired | src/auth/magic_link.rs:300-323 | in every reachable state the newest row of an address and rows without a nonce were never superseded, and every superseded row gave way to a strictly newer one of its address |
| MagicSending.NewestSettles | src/auth/magic_link.rs:308-323 | once the newest sender's statement has run, every other unused row of the address from the form is superseded |
| MagicSending.MailsKeepTheirDistance | src/auth/magic_link.rs:227-276 | of any two mails of one address in any reachable state, the one stamped later is a full window after the other if its claim asked for a window, whether or not the earlier did, whatever the order of locks and the transactions' own clocks, and after releases |
| MagicSending.UnthrottledAtAnyDistance | src/api/handlers/magic_link.rs:196-206 | in any reachable state with a mail sent, a next stamp without a window puts another mail of the address at any distance from it |
| MagicSending.UnthrottledWereStamped | src/auth/magic_link.rs:228-235 | only such a statement makes a row one whose stamp asked for no window |
| MagicSending.WonSeesAll | src/auth/magic_link.rs:245-256 | a winning update is a full window after every mail of its address marked sent before it |
| MagicSending.ClaimedMail | src/auth/magic_link.rs:236-264 | a reachable state with a mail of a won claim and a second unmailed request of its address |
| MagicSending.CommitSpaces | src/auth/magic_link.rs:236-264 | committing a won claim under the address lock keeps every distance |
| TokenTable.MagicLinkTokens.FindLiveCandidate | src/auth/magic_link.rs:163-179 | finds a row if and only if one matches that is unused, not superseded and unexpired |
| TokenTable.MagicLinkTokens.Consume | src/auth/magic_link.rs:198-216 | alone, redeems if and only if a live row matches, and marks only that row |
| TokenTable.MagicLinkTokens.NewestForCode | src/auth/magic_link.rs:344-359 | a newest row of this nonce with a code, mailed, unused, current, unspent and unexpired, if and only if there is one |
| TokenTable.MagicLinkTokens.ConsumeCode | src/auth/magic_link.rs:339-400 | malformed changes nothing; accepted means a row of this very nonce, mailed, unused, current, unspent and unexpired, whose code matched; refused without a change means there is no such row; a miss spends the guess and leaves every link as redeemable as it was |
| TokenTable.StatementsOnRows | src/auth/magic_link.rs:90-106 | creating, superseding and purging do to the rows of the interleaved protocol what the table's own calls do; a new row is blank |
| TokenTable.StampsOnRows | src/auth/magic_link.rs:228-235 | releasing unmarks just the row's mail, and a stamp without a window marks it |
| TokenTable.ClaimIsItsSteps | src/auth/magic_link.rs:227-265 | a claim nobody interrupts, run through its begin, lock, update and commit, marks the row if and only if it is unsent and its address's window is empty, and leaves no lock behind |
| TokenTable.NextClaimIff | src/auth/magic_link.rs:245-256 | after a won claim the address's window is empty again exactly when it has passed |
| TokenTable.SupersedesCommute | src/auth/magic_link.rs:300-323 | two senders' statements leave the same rows superseded in either order |
| TokenTable.PurgeKeepsRedeemable | src/auth/magic_link.rs:411-427 | a purge takes no row away from either route then or later: expiry alone decides |
| TokenTable.ReleaseUndoesClaim | src/auth/magic_link.rs:267-276 | release restores the table from before the claim, which had closed the window |
| MagicCodes.GeneratedCodesRead | src/auth/magic_link.rs:124-157 | every code the generator can make is well formed and survives its own reader |
| MagicCodes.ReadsBackIff | src/auth/magic_link.rs:142-152 | typed text reads as a code if and only if it spells it, with noise, any case and look-alikes |
| MagicCodes.ReadChars | src/auth/magic_link.rs:142-152 | what each single character is read as |
| MagicCodes.WellFormedIff | src/auth/magic_link.rs:154-157 | well formed is six characters of the alphabet |
| MagicCodes.NormalizeSettles | src/auth/magic_link.rs:142-152 | reading a read code changes nothing |
| Redaction.RedactSecrets | src/api/redaction.rs:23-29 | the loop with its containment test is plain replacement secret by secret |
| Redaction.CompleteRemoval | src/api/redaction.rs:23-29 | no inert secret of the list is left in any text, in any list order, nested or overlapping, whatever else is in the list |
| Redaction.EmptyLeavesSingles | src/api/redaction.rs:26 | also an empty secret in the list, which puts marks everywhere, creates no inert text |
| Redaction.RemovedFromEveryTextIffInert | src/api/redaction.rs:23-29 | a secret is removed from every text if and only if the mark can neither begin, end nor be inside it |
| Redaction.NotInertSurvives | src/api/redaction.rs:23-29 | any other secret survives in a text constructed for it |
| Redaction.CleanTextUnchanged | src/api/redaction.rs:23-29 | text with none of the secrets is unchanged |
| Redaction.ReplaceKeepsTheRest | src/api/redaction.rs:26 | with the secret put back between the same pieces the original text returns |
| KeyWords.Words | src/api/redaction.rs:71-99 | the buffer loop yields the words from the start of the key |
| KeyWords.WordsAreTheWords | src/api/redaction.rs:67-99 | the words found are exactly the maximal stretches between punctuation and camelCase humps, in lower case |
| KeyWords.WordsSpellTheKey | src/api/redaction.rs:71-99 | joined, the words are the key's letters and digits in lower case |
| KeyWords.SecretParamIff | src/api/redaction.rs:31-65 | a key is a credential if and only if a listed text occurs in its letters and digits or a listed segment is a whole word of it |
| KeyBoundaries.CapitalStartsWord | src/api/redaction.rs:84-91 | behind a small letter or digit a capital starts a word: the words of both sides |
| KeyBoundaries.LastCapitalStartsWord | src/api/redaction.rs:84-91 | so does the last of a run of capitals before a small letter |
| KeyBoundaries.PunctuationSeparates | src/api/redaction.rs:76-81 | so does anything behind a character that is no letter or digit |
| KeyBoundaries.NowhereElse | src/api/redaction.rs:84-94 | between two letters or digits in any other case no word ends |
| KeyBoundaries.CompactChars | src/api/redaction.rs:56-60 | what each single character becomes in the compact key |
| KeyBoundaries.SegmentMakesSecret | src/api/redaction.rs:31-36 | a listed segment where a word may start and end makes the key a credential |
| KeyBoundaries.SmallKeyIff | src/api/redaction.rs:31-65 | a key in small letters names a credential if and only if it holds a listed text or is a listed segment |
| KeyBoundaries.OobCodeGoes | src/api/redaction.rs:67-70 | `oobCode` loses its value, whatever it is |
| KeyBoundaries.CodewordStays | src/api/redaction.rs:31-33 | `codeword` keeps its |
| UrlScrub.PairScrubbed | src/api/redaction.rs:108-117 | a credential keeps its key and loses its value, any other pair stays byte for byte |
| KeyBoundaries.PairOf | src/api/redaction.rs:108-117 | of `key=value` the value becomes `***` if the key names a credential, and else stays |
| UrlScrub.PairsScrubbed | src/api/redaction.rs:108-117 | the same pairs in the same order, every credential masked, and a second pass changes nothing |
| UrlScrub.FragmentKeepsShape | src/api/redaction.rs:119-128 | a fragment keeps its kind, what stands before its first `?` stays byte for byte, and the pair list after it, or the whole if there is none, is masked |
| UrlScrub.FragmentMaskedIff | src/api/redaction.rs:119-128 | with the pairs before and after the `?` counted, all are masked if and only if there is no `?` or none before it was in the clear |
| UrlScrub.AllMaskedIff | src/api/redaction.rs:145-175 | the same for every credential-keyed pair of a valid URL, in query and fragment |
| UrlScrub.TokenBeforeQuestionStays | src/api/redaction.rs:122-124 | a credential first in a fragment that goes on with a `?` stays, whatever the key and the secret |
| UrlScrub.AccessTokenStays | src/api/redaction.rs:122-124 | a URL of that family comes back unchanged |
| UrlScrub.OnePairOfUrl | src/api/redaction.rs:150-175 | of a URL of one pair, in query or fragment or behind a fragment's `?`, exactly a credential's value becomes `***` |
| UrlScrub.HeadScrubbed | src/api/redaction.rs:130-143 | only what stands between `://` and the last `@` before the next `/` goes; the rest stays, and nothing is left for a second pass |
| UrlUserinfo.ClearedIff | src/api/redaction.rs:130-143 | for every head of a special scheme: exactly when the parser of the URL standard then reads the same host and path and no userinfo |
| UrlUserinfo.SlashFamily | src/api/redaction.rs:131-142 | with userinfo behind any number of slashes: it goes if there are two, else the head stays byte for byte |
| UrlUserinfo.FamilyIsRead | src/api/redaction.rs:130-143 | the parser reads that userinfo behind any number of slashes |
| UrlUserinfo.BackslashReplacesHost | src/api/redaction.rs:135-141 | with a backslash before the first slash the host the parser sees is replaced by what follows the last `@` |
| UrlScrub.HeadReadBack | src/api/redaction.rs:130-143 | reading a head loses nothing, and stripping shows it again without the userinfo |
| UrlScrub.ScrubUrl | src/api/redaction.rs:150-175 | the appending buffer builds the shown scrubbed parts |
| UrlScrub.ScrubKeepsStructure | src/api/redaction.rs:145-175 | a valid URL keeps separators, pairs and order; its query is masked, and its fragment from its `?` on, or all of it without one; a head without `://` stays byte for byte |
| UrlScrub.IdempotentIff | src/api/redaction.rs:150-175 | scrubbing twice differs exactly if the URL has a query or fragment, is accepted, and its scrubbed form is not |
| UrlScrub.IdempotentByHead | src/api/redaction.rs:150-175 | for a parser that judges URLs with a query or fragment by their head, exactly if the URL has one and with an empty query its head is accepted and its head without userinfo is not; never without userinfo |
| UrlScrub.SecondPassDropsQuery | src/api/redaction.rs:160-168 | the family of URLs with userinfo whose query the second pass drops |
| UrlScrub.BackslashLosesItsQuery | src/api/redaction.rs:158-168 | a URL of that family |
| UrlScrub.NoSecretLeft | src/api/redaction.rs:177-198 | no inert secret is left in any field of scrubbed evidence |
| UrlScrub.EvidenceFields | src/api/redaction.rs:180-198 | each field is what the literal pass makes of it, the URL's after its own scrub, which it gets without any secrets too; lines keep their level |
| UrlScrub.FlowEvidence.Scrub | src/api/redaction.rs:180-198 | the in-place scrub rewrites every field and console line as specified, in that order |
| FlowRuns.PendingFlowRuns.Take | src/agent/mod.rs:202-205 | hands out everything and empties the buffer |
| FlowRuns.PendingFlowRuns.Restore | src/agent/mod.rs:209-218 | keeps the first 512 of batch then buffer, and counts what does not fit |
| FlowRuns.PendingFlowRuns.WriteRuns | src/agent/mod.rs:223-232 | keeps the last 512 of buffer then new runs, and counts what does not fit |
| FlowRuns.NothingLostUncounted | src/agent/mod.rs:187-289 | after any run shipped, in flight and queued are a subsequence of production order, and exactly the counted number is missing |
| FlowRuns.SubsequencePlaces | src/agent/mod.rs:221-232 | the kept runs have ascending places among the produced ones |
| FlowRuns.StepAccounts | src/agent/mod.rs:201-289 | every event keeps that account |
| FlowRuns.WedgedForGood | src/api/handlers/agents.rs:120-128 | once what must leave first is over the endpoint's cap, no sequence of events ships anything again |
| FlowRuns.ShipsAgainIff | src/agent/mod.rs:250-289 | the agent can ship another run if and only if it is not wedged |
| FlowRuns.BacklogWedges | src/agent/mod.rs:187-190 | a fresh agent's backlog wedges it if and only if it is over the endpoint's cap |
| PullCache.AgentPullSource.ListAllEnabledTargets | src/agent/mod.rs:100-184 | every exit by status code and body, with the answer and the cache after it; etag and targets are always those of one answer, the latest since the last rejection |
| PullCache.KnownNext | src/agent/mod.rs:129-183 | what one more response does to the latest knowledge: a rejection forgets, a fresh answer replaces, all else keeps |
| PullCache.KnownSince | src/agent/mod.rs:129-183 | a usable answer is known until the next one or a 401 or 403, and after such a rejection nothing is |
| PullCache.EtagNamesTargets | src/agent/mod.rs:101-109 | against an honest server the cached etag names the cached list, one the server held |
| PullCache.UpToDate | src/agent/mod.rs:130-132 | then a 304 or a fresh answer leaves the agent with the server's current list (section 13.1.2 of RFC 9110) |
| Incidents.CoalesceIncidents | src/domain/incident.rs:172-198 | the loop yields the incidents of the stream's runs |
| Incidents.OneIncidentPerRun | src/domain/incident.rs:167-240 | one incident per maximal run of bad checks, in order, with its first time, length, last status and first error |
| Incidents.IncidentFields | src/domain/incident.rs:167-240 | each incident field by field, in terms of the statuses, times and error texts of its checks |
| Incidents.EveryBadCheckCounted | src/domain/incident.rs:178-189 | every check that is down or in error belongs to a run |
| Incidents.RunsAreMaximal | src/domain/incident.rs:167-198 | the runs listed are exactly the maximal runs |
| Incidents.ChecksConserved | src/domain/incident.rs:200-240 | check counts add up to the bad checks |
| Incidents.EndedIffClosedAndLong | src/domain/incident.rs:186-213 | an incident has an end and a duration if and only if its run is over and has at least two checks |
| Incidents.LoneFailureLooksOngoing | src/domain/incident.rs:186-187 | one failed check and a good one make an incident without an end |
| Downtime.OneIncident | src/domain/incident.rs:95-103 | one incident counts the whole seconds from its start to its end, or to now if it has none; the window if it covers it; nothing outside |
| Downtime.OneIncidentCutOff | src/domain/incident.rs:98-101 | and the rest if one side of the window cuts it off |
| Downtime.ListCounts | src/domain/incident.rs:89-104 | in any list an open incident counts as closed now, an excluded one nothing, and lists add up |
| Downtime.DowntimeAdditive | src/domain/incident.rs:89-104 | adjoining windows lose at most a second per counted incident, and nothing on whole seconds |
| Downtime.DowntimeUnordered | src/domain/incident.rs:89-104 | the sum does not depend on the order |
| Downtime.ExcludedIgnored | src/domain/incident.rs:97 | excluded incidents do not count |
| Downtime.DisjointFit | src/domain/incident.rs:98-102 | disjoint overlaps add up to no more than the window |
| Downtime.UptimeNeedsNoClamp | src/domain/incident.rs:106-113 | for disjoint incidents uptime is the plain ratio and the clamps never act |
| Downtime.UptimeEnds | src/domain/incident.rs:106-113 | 100 without a window or downtime, 0 when all of it is down, and in proportion between |
| Account.Database.TombstoneAll | src/auth/account.rs:165-193 | tombstones all the orgs, or names one that is gone or has another member |
| Account.Database.DeleteWith | src/auth/account.rs:143-243 | for orgs found earlier, whatever happened since: everything, row by row, if and only if the account is active and every org still has no other member, else nothing changes |
| Account.Database.RequestDeletion | src/auth/account.rs:49-248 | refused, with nothing changed, if and only if the account is not active or a live org it alone owns has another member; else, row by row, exactly its sessions, tokens, invitations and other memberships go and its own orgs are stamped |
| Account.Database.RestoreAccount | src/auth/account.rs:262-344 | lifts exactly the tombstones of owned orgs not older than the account's, or does nothing |
| Account.DeleteThenRestore | src/auth/account.rs:70-344 | users and orgs return exactly as before, and no org deleted earlier revives; the memberships, sessions, tokens and invitations that are lost are listed row by row |
| Account.EarlierOrgLosesOwner | src/auth/account.rs:224-233 | an org deleted earlier by its only owner is left without an owner |
| Account.DeletionKeepsOwners | src/auth/account.rs:70-81 | a deletion leaves every live org an active owner |
| Account.RestoreKeepsOwners | src/auth/account.rs:318-344 | so does a recovery |
| Account.LiveOrgsStayOwned | src/auth/account.rs:49-344 | so does any sequence of both, by any users |
| OrgLifecycle.AlwaysOwnedIff | src/storage/orgs.rs:640-858 | with orgs deleted and recovered on their own in between, every live org keeps an active owner throughout if and only if every org so recovered has one at that moment |
| OrgLifecycle.RestoreOrgOwnedIff | src/storage/orgs.rs:777-789 | recovering one org keeps all live orgs owned if and only if it has an active owner |
| OrgLifecycle.OrgRows | src/storage/orgs.rs:684-789 | row by row, who may delete and who may recover an org, and what changes |
| OrgLifecycle.DeleterKeepsAnOrg | src/storage/orgs.rs:637-669 | deleting an org leaves its deleter another live one |
| OrgLifecycle.RecoveredOwnerless | src/storage/orgs.rs:739-789 | deleting an org owned alone, then the account, and recovering both brings the org back live without an owner, from any state that allows it |
| Escalation.PageShrinks | src/domain/escalation_policy.rs:157-179 | every page uses up a round or leaves fewer rungs above, for any list and position |
| Escalation.LadderWalkedExactly | src/domain/escalation_policy.rs:151-179 | a fresh incident walks the whole ladder `repeat_count + 1` times in order, then never again |
| Escalation.PagesClosedForm | src/domain/escalation_policy.rs:151-179 | page `r * rungs + k` is rung `k` of round `r`, and there are exactly that many pages |
| Escalation.PageFields | src/domain/escalation_policy.rs:166-176 | with the level, the round and the delay of that rung |
| Escalation.StepTable | src/domain/escalation_policy.rs:157-179 | one step for any list: the first rung above the level, else the first rung of the next round, else none |
| Escalation.LastPageIsLast | src/domain/escalation_policy.rs:151-179 | the run of pages from any position ends in a position that is exhausted |
| Cadence.RoundUpBracket | src/domain/heartbeat.rs:130-139 | never below, less than a step above, on a step, and unchanged exactly on a step |
| Cadence.RoundingTable | src/domain/heartbeat.rs:130-139 | to the minute up to ten minutes, to five up to an hour, to fifteen up to six hours, then to the hour |
| Cadence.NinetyNotEightyThree | src/domain/heartbeat.rs:129 | the documented example |
| Cadence.AdviceTable | src/domain/heartbeat.rs:111-126 | when there is advice, which, and for what period |
| Cadence.RoundUpSettles | src/domain/heartbeat.rs:130-139 | rounding a rounded number changes nothing, across brackets too |
| Cadence.RoundUpMonotone | src/domain/heartbeat.rs:130-139 | rounding keeps order across all brackets |
| Cadence.AdviceSettlesIff | src/domain/heartbeat.rs:108-139 | exactly when adopting the suggested period ends the advice |
| Cadence.WholeSecondsSettleIff | src/domain/heartbeat.rs:108-139 | on whole seconds, exactly from 16 seconds on |
| Cadence.TenSecondsNeverSettle | src/domain/heartbeat.rs:111-139 | a ten-second median is first too tight, then too loose, with the same suggestion |
| TextCaps.TruncateBytes | src/text.rs:30-45 | the loop over characters yields the encoding of the capped text, whole characters only |
| TextCaps.FittingIsLongest | src/text.rs:34-41 | a prefix fits the budget if and only if it is no longer than the cut |
| TextCaps.ByteCapExact | src/text.rs:28-45 | exactly when the cap holds; longest prefix with room for the ellipsis; idempotent under any cap |
| TextCaps.TinyCapOverflows | src/text.rs:34 | under a smaller cap any text that does not fit becomes three bytes |
| TextCaps.CharCapExact | src/text.rs:17-26 | the same for characters: what fits stays, else the leading characters and the ellipsis use the cap in full |
| TextCaps.SingleLineExact | src/text.rs:5-15 | one line, same words in order, unchanged if and only if already one line, idempotent |
| TextCaps.SingleLineCodePoints | src/text.rs:5-15 | no control character, and of all white space only single inner spaces, by code point |
| TextCaps.SingleLineOfTwo | src/text.rs:7-15 | of two printable words whatever stands between them becomes one space, and around them nothing stays |
| TextCaps.EncodingTable | src/text.rs:30-33 | each character is encoded as the table of section 3 of RFC 3629 has it |
| TextCaps.EncodeInjective | src/text.rs:30-33 | the bytes determine the text (section 3 of RFC 3629) |

## Left out

- Libraries: Tokio's `Notify` is one permit and a first-in first-out queue of waiters whose dropped wake-ups are forwarded; the cache may forget any entry at any step; ids are never reused; Postgres statements are atomic.
- Dispatch: the eviction from the queue and the invalidation of its entry are one step, as both are under the queue's lock.
- AdHocDispatch.RegionSlot.ClaimChecks: runs with nobody else active; claims that other tasks interrupt are runs of the slot's steps.
- Losing a claimed batch when the agent's connection drops after the drain, and `run_local_executor`, which only calls the modelled operations.
- MagicLinks: callers pass the address of the row itself to `claim_send` and `supersede_others`, as the handler does; the token-prefix lookup, which only narrows the candidates, `peek`, `ip_hash`, redirects and invitations are not modelled; hashing is an arbitrary relation.
- MagicSending.NewestSettles: is about the statement on its own; a row whose sender never gets to its own statement stays until an even newer one.
- Time zones, leap seconds and the calendar: instants are integers.
- `secret_values`, which drops secrets shorter than four bytes, and the in-place redaction of API payloads.
- UrlScrub.ScrubKeepsStructure: does not promise that pairs before a `?` inside a fragment are masked, for which it is false.
- UrlScrub.IdempotentIff: `Url::parse` is an arbitrary predicate; that the real parser accepts or rejects the URLs named above follows the URL standard of the WHATWG and is not part of this model.
- UrlUserinfo.ClearedIff: the reading is that of a special scheme other than `file`, after white space is trimmed, and for a host that is not empty, without which the parser accepts no such URL; percent-encoding and host syntax play no part.
- FlowRuns.NothingLostUncounted: `shipped` is what was acknowledged; a batch that landed while its acknowledgement was lost is sent again and may be stored twice.
- FlowRuns: retries inside one batch, and the results that the batch carries, which share its fate.
- PullCache.AgentPullSource.ListAllEnabledTargets: one pull at a time, as the scheduler calls it; returns an error for a body that cannot be read or decoded although the cache's documentation speaks of last-known config, as the code does.
- Incidents: ids, severity and the public narration, which coalescing sets to constants.
- Downtime.UptimeNeedsNoClamp: over the reals, not `f64`.
- Account.Database.RequestDeletion: transactions are serial; the choice of candidates before the account locks can be stale, and `DeleteWith` shows what the writes do then.
- Account: slugs and their uniqueness on recovery, audit rows, `updated_at`, the grace deadline and the purge job.
- Account.LiveOrgsStayOwned: starts from a state in which deleted users are members only of their own tombstoned orgs; orgs deleted on their own are in `OrgLifecycle`, role changes, removals and invitations are not modelled.
- OrgLifecycle.AlwaysOwnedIff: the plan's caps and the slug are one verdict, sessions and heartbeats are not moved, and the audit log is only who deleted each org last.
- Escalation: the engine that stores the position and schedules the pages.
- Cadence.AdviceSettlesIff: below the range in which the source's 64-bit multiplication would overflow.
- Storage, quotas, probing, notification transports, configuration and the HTTP layer: plumbing, or facts of one branch.
