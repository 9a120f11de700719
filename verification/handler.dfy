/**
 The cookie layer of `POST /polls/:pollId/votes`.

 When the handler mints an identity it sets it as a signed cookie: the
 browser receives and sends back `<id>.<signature>`, the signature being an
 HMAC of the id under the server's secret (passed in here as `sign`, whose
 output, base64 text, never contains a dot). The handler as written reads
 the raw cookie value as the session id, so a minted voter's next request
 is looked up under the signed text, not under the id the vote was recorded
 with. `VoteAsWritten` models that; `Vote` is the handler that unsigns the
 cookie first, so the minted identity is the one it reads back.

 Both are thin layers over `Tally.SubmitVote`, so the ledger/score invariant
 holds for either.
 */
module Handler {
  import opened Wrappers
  import ScoreStore
  import Tally

  type SessionId = Tally.SessionId

  /** What the browser sees: 201, with the `Set-Cookie` value when one was issued, or 400. */
  datatype HttpReply = Created(setCookie: Option<string>) | AlreadyVoted

  predicate NoDot(s: string) {
    forall i :: 0 <= i < |s| ==> s[i] != '.'
  }

  /** The value of a signed cookie: the raw value, a dot, and the value's signature. */
  function Signed(value: string, sign: string -> string): (c: string)
    ensures |c| > |value| && c[..|value|] == value && c[|value|] == '.'
  {
    value + "." + sign(value)
  }

  /** Index of the last dot in `s`, if any (`lastIndexOf('.')`). */
  function LastDot(s: string): (r: Option<nat>)
    ensures r.Some? ==> r.value < |s| && s[r.value] == '.' && NoDot(s[r.value + 1..])
    ensures r.None? ==> NoDot(s)
    decreases |s|
  {
    if |s| == 0 then None
    else if s[|s| - 1] == '.' then Some(|s| - 1)
    else
      var r := LastDot(s[..|s| - 1]);
      assert r.Some? ==> s[r.value + 1..] == s[..|s| - 1][r.value + 1..] + [s[|s| - 1]];
      assert r.None? ==> s == s[..|s| - 1] + [s[|s| - 1]];
      r
  }

  /**
   `unsignCookie`: the text before the last dot, when the text after it is
   that value's signature; `None` for an unsigned or tampered cookie.
   */
  function Unsign(cookie: string, sign: string -> string): (r: Option<string>)
    ensures r.Some? ==> cookie == Signed(r.value, sign)
  {
    match LastDot(cookie)
    case None => None
    case Some(d) =>
      if cookie[d + 1..] == sign(cookie[..d]) then
        assert cookie == cookie[..d] + "." + cookie[d + 1..];
        Some(cookie[..d])
      else None
  }

  /** Unsigning gives back what was signed, as long as the signature has no dot. */
  lemma UnsignSigned(value: string, sign: string -> string)
    requires NoDot(sign(value))
    ensures Unsign(Signed(value, sign), sign) == Some(value)
  {
  }

  /** The reply the browser gets for a submission's outcome. */
  function Respond(response: Tally.Response, sign: string -> string): HttpReply {
    match response
    case DuplicateVote => AlreadyVoted
    case Accepted(voter, cookieSet) => Created(if cookieSet then Some(Signed(voter, sign)) else None)
  }

  /**
   The handler as written: the cookie value, still signed, is the session
   id the ledger is searched under.
   */
  function VoteAsWritten(s: Tally.State, cookie: Option<string>, freshId: SessionId,
                         poll: ScoreStore.PollId, option: ScoreStore.OptionId, sign: string -> string)
    : (r: (Tally.State, HttpReply))
    requires !Tally.HasSession(cookie) ==> (freshId, poll) !in s.ledger
    ensures r.1 == AlreadyVoted <==> Tally.IsDuplicate(s, cookie, poll, option)
    ensures r.1.Created? ==> (r.1.setCookie.Some? <==> !Tally.HasSession(cookie))
    ensures r.1.Created? && r.1.setCookie.Some? ==>
              && r.1.setCookie.value == Signed(freshId, sign)
              && r.0.ledger == s.ledger[(freshId, poll) := option]
    ensures r.1.Created? && Tally.HasSession(cookie) ==> r.0.ledger == s.ledger[(cookie.value, poll) := option]
  {
    var (s', response) := Tally.SubmitVote(s, cookie, freshId, poll, option);
    (s', Respond(response, sign))
  }

  /** The session a request carries once its cookie is unsigned; a bad signature counts as none. */
  function SessionOf(cookie: Option<string>, sign: string -> string): (session: Option<SessionId>)
    ensures session.Some? ==> cookie.Some? && cookie.value == Signed(session.value, sign)
  {
    if cookie.Some? then Unsign(cookie.value, sign) else None
  }

  /**
   The handler with the cookie unsigned before use: the ledger is searched
   under the id that was signed, and a cookie whose signature does not
   check is treated as no cookie.
   */
  function Vote(s: Tally.State, cookie: Option<string>, freshId: SessionId,
                poll: ScoreStore.PollId, option: ScoreStore.OptionId, sign: string -> string)
    : (r: (Tally.State, HttpReply))
    requires !Tally.HasSession(SessionOf(cookie, sign)) ==> (freshId, poll) !in s.ledger
    ensures r.1 == AlreadyVoted <==> Tally.IsDuplicate(s, SessionOf(cookie, sign), poll, option)
    ensures r.1.Created? ==> (r.1.setCookie.Some? <==> !Tally.HasSession(SessionOf(cookie, sign)))
    ensures r.1.Created? && r.1.setCookie.Some? ==>
              && r.1.setCookie.value == Signed(freshId, sign)
              && r.0.ledger == s.ledger[(freshId, poll) := option]
    ensures r.1.Created? && Tally.HasSession(SessionOf(cookie, sign)) ==>
              && cookie.Some?
              && r.0.ledger == s.ledger[(SessionOf(cookie, sign).value, poll) := option]
  {
    var (s', response) := Tally.SubmitVote(s, SessionOf(cookie, sign), freshId, poll, option);
    (s', Respond(response, sign))
  }

  /** The unsigning handler keeps every score equal to its number of ledger records. */
  lemma VotePreservesConsistency(s: Tally.State, cookie: Option<string>, freshId: SessionId,
                                 poll: ScoreStore.PollId, option: ScoreStore.OptionId, sign: string -> string)
    requires !Tally.HasSession(SessionOf(cookie, sign)) ==> (freshId, poll) !in s.ledger
    requires Tally.Consistent(s)
    ensures Tally.Consistent(Vote(s, cookie, freshId, poll, option, sign).0)
  {
    Tally.SubmitVotePreservesConsistency(s, SessionOf(cookie, sign), freshId, poll, option);
  }

  /**
   As written, a browser that voted without a cookie and sends the same
   vote again with the cookie it was given is counted a second time: the
   signed text is looked up as a session of its own, which has no record.
   */
  lemma MintedReplayAsWrittenCountsTwice(s: Tally.State, freshId: SessionId, nextFreshId: SessionId,
                                         poll: ScoreStore.PollId, option: ScoreStore.OptionId,
                                         sign: string -> string)
    requires (freshId, poll) !in s.ledger
    requires (Signed(freshId, sign), poll) !in s.ledger
    ensures var (s1, r1) := VoteAsWritten(s, None, freshId, poll, option, sign);
            var (s2, r2) := VoteAsWritten(s1, r1.setCookie, nextFreshId, poll, option, sign);
            && r1 == Created(Some(Signed(freshId, sign)))
            && r2 == Created(None)
            && (freshId, poll) in s2.ledger && (Signed(freshId, sign), poll) in s2.ledger
            && ScoreStore.ScoreOf(s2.scores, poll, option) == ScoreStore.ScoreOf(s.scores, poll, option) + 2
  {
  }

  /**
   With the cookie unsigned, sending the same vote again with the cookie a
   minted vote set is rejected as a duplicate and changes nothing. The
   minted id is not empty (`randomUUID()` never is) and its signature, being
   base64 text, has no dot.
   */
  lemma MintedReplayIsDuplicate(s: Tally.State, freshId: SessionId, nextFreshId: SessionId,
                                poll: ScoreStore.PollId, option: ScoreStore.OptionId, sign: string -> string)
    requires freshId != "" && (freshId, poll) !in s.ledger
    requires NoDot(sign(freshId))
    ensures var (s1, r1) := Vote(s, None, freshId, poll, option, sign);
            && r1 == Created(Some(Signed(freshId, sign)))
            && Vote(s1, r1.setCookie, nextFreshId, poll, option, sign) == (s1, AlreadyVoted)
  {
    UnsignSigned(freshId, sign);
  }
}
