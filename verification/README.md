# Live poll tally: vote submission and poll snapshot

A Dafny model of the two route handlers at the heart of the live polling
server: `POST /polls/:pollId/votes`, which records an anonymous voter's
choice and keeps the live score table and the published tally events in
step with it, and `GET /poll/:pollId`, which returns a poll's options with
their current scores.

The storage clients become immutable values:

- the vote ledger (the `vote` table, unique on `(sessionId, pollId)`) is a
  map from (session, poll) to the chosen option;
- the Redis score table (one sorted set per poll, members are option ids)
  is a map from (poll, option) to an integer score, a missing member
  reading as 0;
- `voting.publish` appends `(poll, option, votes)` to an event log.

A vote submission is the pure transition `Tally.SubmitVote`. The session
cookie is an optional string. JavaScript's `if (sessionId)` treats an empty
cookie like a missing one, and the model does the same. The id that
`randomUUID()` would mint is passed in as `freshId`. `Snapshot.GetPoll`
takes the catalog, the poll id and the flat `ZRANGE ... WITHSCORES` reply.
It folds the reply into a member-to-score table the way `reduce` does.
Redis replies carry scores as decimal text, so module `Decimal` models that
text and `Number` on it.

Modules:

- `Wrappers`: the `Option` type.
- `Decimal`: score text and `Number`, with the read-back round trip.
- `ScoreStore`: ZINCRBY, range reads and their flat wire form.
- `Tally`: the vote handler and the ledger/score invariant.
- `Snapshot`: the snapshot handler, the fold and its round trip.
- `Handler`: the signed session cookie around `Tally.SubmitVote`, both as
  written and with the cookie unsigned before use (see Findings).
- `Consistency`: ties the two handlers together. A snapshot over a
  consistent store reports each option's number of ledger records.

Two things a poll service might be expected to do are absent from the
handlers, and the model follows the handlers:

- A vote submission checks neither that the poll exists nor that the option
  does. No `PollNotFound`/`OptionNotFound` is modelled for votes.
- The range read arrives as a flat interleaved list of strings, not as typed
  pairs. The fold over it is modelled as written.

## Model

| member | source | states |
|---|---|---|
| Decimal.NumberShow | src/http/routes/get-poll.ts:39-40 | The decimal text Redis gives for an integral score is text `Number` accepts, and `Number` of it is that score again. |
| ScoreStore.ZIncrBy | src/http/routes/vote-on-poll.ts:78 | ZINCRBY moves the member's score by exactly `delta` (an absent member counts from 0). The member is in the set afterwards, no other score changes, and the reply text reads back as the new score. |
| ScoreStore.Flatten | src/http/routes/get-poll.ts:33 | A WITHSCORES reply has even length, members at even positions and decimal scores right after them. |
| Tally.Retract | src/http/routes/vote-on-poll.ts:35-50 | Deleting the previous vote removes exactly that (session, poll) record. The old option loses exactly one vote and no other score moves. One event is appended, carrying the old option's score after the decrement. |
| Tally.Cast | src/http/routes/vote-on-poll.ts:70-83 | Creating the vote adds exactly the (session, poll) record for the option and keeps every other record. The option gains exactly one vote and no other score moves. One event is appended, carrying the option's score after the increment. |
| Tally.SubmitVote | src/http/routes/vote-on-poll.ts:21-85 | The response is a duplicate exactly when a truthy cookie's session already voted for this option in this poll, and then nothing changes. An accepted vote is recorded under the cookie's session, or under the minted id with a new cookie when there is no truthy cookie. The voter's record for the poll then names the option and no other record changes. A revote takes one from the old option and adds one to the new, and appends (old, score) then (new, score), each equal to the stored score. A new vote adds one record, raises only the chosen option by one, and appends one event. |
| Tally.InitialStateConsistent | src/http/routes/vote-on-poll.ts:70-78 | Before any vote, every score equals its record count (all zero). |
| Tally.RetractPreservesConsistency | src/http/routes/vote-on-poll.ts:35-45 | Deleting a record together with the decrement keeps every score equal to the number of records voting for it. |
| Tally.CastPreservesConsistency | src/http/routes/vote-on-poll.ts:70-78 | Creating a record together with the increment keeps every score equal to the number of records voting for it. |
| Tally.SubmitVotePreservesConsistency | src/http/routes/vote-on-poll.ts:24-83 | If every score equals the number of ledger records for that (poll, option), this still holds after any submission: duplicate, revote or new. |
| Tally.SubmitVoteEventsMatchLedger | src/http/routes/vote-on-poll.ts:41-50 | Starting from a consistent store, every event a submission publishes carries the number of ledger records for its option once the submission is over. A subscriber never sees a score the durable records do not back. |
| Tally.RetractKeepsScoreNonNegative | src/http/routes/vote-on-poll.ts:33-45 | While scores equal record counts, the option a revote leaves holds at least one vote, so its decrement never drives a score below zero. |
| Tally.ConsistentScoresNonNegative | src/http/routes/vote-on-poll.ts:41-45 | While scores equal record counts, no score is negative. |
| Tally.ReplayIsDuplicate | src/http/routes/vote-on-poll.ts:23-55 | Sending a vote again with the same truthy cookie is rejected as a duplicate and changes nothing, whatever the first submission did. |
| Snapshot.Votes | src/http/routes/get-poll.ts:37-43 | The folded table's keys are exactly the members named at even positions of the reply. |
| Snapshot.VotesAtLastKey | src/http/routes/get-poll.ts:37-43 | A member's folded score is `Number` of the entry after its last occurrence, since a later assignment overwrites an earlier one. |
| Snapshot.VotesSpec | src/http/routes/get-poll.ts:37-43 | The fold stated for every member of the reply at once: each member is in the table, scored `Number` of the entry after its last occurrence. |
| Snapshot.ReplyKeyHasLastIndex | src/http/routes/get-poll.ts:37-43 | Every member a reply names has a last occurrence, so every such member gets a score from the fold. |
| Snapshot.ScoreOptionFromReply | src/http/routes/get-poll.ts:37-52 | An option keeps its id and title. If the reply never names it, it scores 0. Otherwise some last occurrence of it exists and it scores `Number` of the entry after that occurrence. |
| Snapshot.ScoreOptions | src/http/routes/get-poll.ts:49-52 | The scored list has one entry per catalog option, at the same position. |
| Snapshot.GetPoll | src/http/routes/get-poll.ts:15-54 | The result is "not found" exactly when the catalog has no such poll. Otherwise the view has the poll's id and title. When the catalog files every poll under its own id, as the primary-key lookup does, that id is the requested one. The view also has exactly the poll's options, in catalog order, with their ids and titles. An option the reply never names scores 0. An option the reply names scores the entry after its last occurrence. Reply members matching no option do not appear. |
| Snapshot.FoldFlatten | src/http/routes/get-poll.ts:33-43 | Folding a flattened pair list gives a table whose keys are exactly the pairs' keys. Each pair's score survives unless a later pair repeats its key; then the later one wins. |
| Snapshot.FoldFlattenAt | src/http/routes/get-poll.ts:37-43 | One pair that no later pair repeats comes back from the fold of the flat list with its own score. |
| Snapshot.FoldFlattenDistinct | src/http/routes/get-poll.ts:33-43 | For pairs with distinct keys, as a range read has, flattening and then folding gives back exactly the map of the pairs. |
| Consistency.SnapshotReportsLedgerCounts | src/http/routes/get-poll.ts:33-52 | Over a complete range read of a consistent store, every option in a found poll's view scores the number of ledger records choosing it. This includes options Redis holds no member for. |
| Handler.UnsignSigned | src/http/routes/vote-on-poll.ts:62-67 | Unsigning the value of a signed cookie gives back the id that was signed, provided the signature has no dot, as base64 text never has. |
| Handler.VoteAsWritten | src/http/routes/vote-on-poll.ts:21-85 | The handler as written, with the raw cookie as session: 400 exactly for a duplicate. A `Set-Cookie` value is issued exactly when there is no truthy cookie, and it is the signed minted id, under which the vote is recorded. |
| Handler.Vote | src/http/routes/vote-on-poll.ts:21-85 | The handler with the cookie unsigned first: 400 exactly when the unsigned session already voted this option. A signed minted id is issued exactly when no valid truthy session arrives, and the vote is recorded under the session it read or the minted id. |
| Handler.VotePreservesConsistency | src/http/routes/vote-on-poll.ts:21-85 | The handler with the cookie unsigned keeps every score equal to its number of ledger records. |
| Handler.MintedReplayAsWrittenCountsTwice | src/http/routes/vote-on-poll.ts:21-76 | As written, a first vote without a cookie followed by the same vote with the cookie it set is accepted twice. The option gains two votes, recorded under the minted id and under its signed text. |
| Handler.MintedReplayIsDuplicate | src/http/routes/vote-on-poll.ts:21-76 | With the cookie unsigned, the same vote sent again with the cookie a minted vote set is rejected as a duplicate and changes nothing. |
| Consistency.RevoteExample | src/http/routes/vote-on-poll.ts:33-83 | v1 votes A, v2 votes B, then v1 moves to B in poll p1. This leaves A at 0 and B at 2, and the move publishes (A, 0) and then (B, 2). |

## Left out

- Fastify routing and the zod schemas (uuid checks on `pollId` and `pollOptionId`). Ids are arbitrary strings assumed already validated.
- The Prisma and Redis clients are replaced by in-memory maps. The model does not cover the atomicity of ZINCRBY under concurrent requests, or the revote being two separate storage steps.
- Prisma's unique-constraint exception when a vote would be created twice for one (session, poll) pair. `Tally.Cast` requires that the pair has no record. `Tally.SubmitVote` requires that the minted id has no record in the poll, which a fresh UUID never has.
- Existence checks for the poll and the option on vote submission: the handler performs none.
- The pub/sub transport behind `voting.publish`: subscriber delivery and fan-out are not part of this model. Publishing is appending to the event log.
- Tally.ReplayIsDuplicate: covers a replay with the same truthy cookie only. After a vote that minted an identity, the browser sends back the signed cookie, which the handler as written reads as a different session id, so that path is not idempotent in the source (see Findings and `Handler.MintedReplayAsWrittenCountsTwice`).
- The HMAC behind cookie signing: the signature is the parameter `sign`, assumed to be dot-free base64 text. Cookie path, httpOnly and the 30-day maxAge of 2592000 seconds are not modelled, nor is cookie expiry.
- `randomUUID` is not modelled: its result is the `freshId` parameter. Neither is the `console.log` of the range read.
- Redis scores are doubles and `Number` accepts more than decimal integers. Scores here are integers written as plain decimal text. A reply of odd length, or with a non-numeric score, is excluded by a precondition, so `Number(undefined)`/NaN never arises.
- The order ZRANGE lists members in (ascending score) is not modelled. `ScoreStore.IsRangeRead` admits any order, and the fold of distinct members does not depend on it.
- JavaScript's `in` also sees properties inherited from `Object.prototype` (an option id such as `constructor`). Option ids are UUIDs, so the model treats the folded table as a plain map.
- Unexpected storage failures, which end only the one request, are not modelled.

## Findings

| source | as written | input that shows it | evidently intended | confidence | as-written member | corrected member |
|---|---|---|---|---|---|---|
| src/http/routes/vote-on-poll.ts:21-67 | The minted session id is set as a signed cookie, but the next request reads `request.cookies.sessionId` without unsigning it, so the session looked up is `<uuid>.<signature>`, not the recorded `<uuid>`. | Vote for A with no cookie (recorded under `u`, cookie `u.sig` issued), then vote for A again sending `u.sig`: accepted a second time, A gains two votes. | The handler unsigns the cookie and looks the vote up under `u`, so the second request is rejected as already voted. | medium, not executed | Handler.MintedReplayAsWrittenCountsTwice | Handler.MintedReplayIsDuplicate |
