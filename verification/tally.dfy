/**
 The vote submission handler of `POST /polls/:pollId/votes`.

 The durable vote ledger (the Prisma `vote` table, unique on
 (sessionId, pollId)), the Redis score table and the stream of published
 tally events are one immutable `State`; a submission is a pure transition
 from one state to the next. The session cookie arrives as an optional
 string, and the identity `randomUUID()` would mint is passed in as
 `freshId`.
 */
module Tally {
  import opened Wrappers
  import ScoreStore
  import Decimal

  type SessionId = string
  type PollId = ScoreStore.PollId
  type OptionId = ScoreStore.OptionId

  /** The option each (session, poll) pair currently votes for. */
  type Ledger = map<(SessionId, PollId), OptionId>

  /** What `voting.publish(pollId, { pollOptionId, votes })` sends to the poll's subscribers. */
  datatype Event = Event(pollId: PollId, pollOptionId: OptionId, votes: int)

  datatype State = State(ledger: Ledger, scores: ScoreStore.Scores, events: seq<Event>)

  /**
   201 with the identity the vote was recorded under (and whether a new
   cookie was set), or 400 "User had already voted with this option!".
   */
  datatype Response = Accepted(voter: SessionId, cookieSet: bool) | DuplicateVote

  /** `if (sessionId)`: a missing cookie and an empty one are both falsy. */
  predicate HasSession(cookie: Option<SessionId>) {
    cookie.Some? && cookie.value != ""
  }

  /** The request resubmits the option its session already voted for in this poll. */
  predicate IsDuplicate(s: State, cookie: Option<SessionId>, poll: PollId, option: OptionId) {
    && HasSession(cookie)
    && (cookie.value, poll) in s.ledger
    && s.ledger[(cookie.value, poll)] == option
  }

  /** The request changes the option its session voted for in this poll. */
  predicate IsRevote(s: State, cookie: Option<SessionId>, poll: PollId, option: OptionId) {
    && HasSession(cookie)
    && (cookie.value, poll) in s.ledger
    && s.ledger[(cookie.value, poll)] != option
  }

  /**
   Revote, first half: delete the session's old record, take one vote from
   the old option, and publish that option's new score.
   */
  function Retract(s: State, session: SessionId, poll: PollId): (r: State)
    requires (session, poll) in s.ledger
    ensures (session, poll) !in r.ledger
    ensures r.ledger.Keys == s.ledger.Keys - {(session, poll)}
    ensures forall k :: k in r.ledger ==> r.ledger[k] == s.ledger[k]
    ensures var previous := s.ledger[(session, poll)];
            && ScoreStore.ScoreOf(r.scores, poll, previous) == ScoreStore.ScoreOf(s.scores, poll, previous) - 1
            && (forall p, o :: (p, o) != (poll, previous) ==>
                  ScoreStore.ScoreOf(r.scores, p, o) == ScoreStore.ScoreOf(s.scores, p, o))
            && r.events == s.events + [Event(poll, previous, ScoreStore.ScoreOf(r.scores, poll, previous))]
  {
    var previous := s.ledger[(session, poll)];
    var ledger := s.ledger - {(session, poll)};
    var (scores, votes) := ScoreStore.ZIncrBy(s.scores, poll, previous, -1);
    State(ledger, scores, s.events + [Event(poll, previous, Decimal.Number(votes))])
  }

  /**
   Create the session's record for `option`, add one vote to it, and
   publish its new score. Prisma's unique constraint makes this fail when
   the pair already has a record, so callers first clear it.
   */
  function Cast(s: State, session: SessionId, poll: PollId, option: OptionId): (r: State)
    requires (session, poll) !in s.ledger
    ensures (session, poll) in r.ledger && r.ledger[(session, poll)] == option
    ensures r.ledger.Keys == s.ledger.Keys + {(session, poll)}
    ensures forall k :: k in s.ledger ==> r.ledger[k] == s.ledger[k]
    ensures ScoreStore.ScoreOf(r.scores, poll, option) == ScoreStore.ScoreOf(s.scores, poll, option) + 1
    ensures forall p, o :: (p, o) != (poll, option) ==>
              ScoreStore.ScoreOf(r.scores, p, o) == ScoreStore.ScoreOf(s.scores, p, o)
    ensures r.events == s.events + [Event(poll, option, ScoreStore.ScoreOf(r.scores, poll, option))]
  {
    var ledger := s.ledger[(session, poll) := option];
    var (scores, votes) := ScoreStore.ZIncrBy(s.scores, poll, option, 1);
    State(ledger, scores, s.events + [Event(poll, option, Decimal.Number(votes))])
  }

  /**
   One vote submission. Without a (truthy) session cookie the vote is
   recorded under `freshId`, which must not already have a record in this
   poll, as a freshly generated UUID never does.
   */
  function SubmitVote(s: State, cookie: Option<SessionId>, freshId: SessionId, poll: PollId, option: OptionId)
    : (r: (State, Response))
    requires !HasSession(cookie) ==> (freshId, poll) !in s.ledger
    // duplicate: rejected, nothing changes
    ensures r.1 == DuplicateVote <==> IsDuplicate(s, cookie, poll, option)
    ensures IsDuplicate(s, cookie, poll, option) ==> r.0 == s
    // identity: the cookie's session, or the minted one with a new cookie
    ensures r.1.Accepted? ==>
              && r.1.voter == (if HasSession(cookie) then cookie.value else freshId)
              && r.1.cookieSet == !HasSession(cookie)
    // ledger: the voter's record for this poll now names `option`; no other record changes
    ensures r.1.Accepted? ==> r.0.ledger == s.ledger[(r.1.voter, poll) := option]
    // revote: old option -1 then new option +1, two events in that order
    ensures IsRevote(s, cookie, poll, option) ==>
              var previous := s.ledger[(cookie.value, poll)];
              && ScoreStore.ScoreOf(r.0.scores, poll, previous) == ScoreStore.ScoreOf(s.scores, poll, previous) - 1
              && ScoreStore.ScoreOf(r.0.scores, poll, option) == ScoreStore.ScoreOf(s.scores, poll, option) + 1
              && (forall p, o :: (p, o) != (poll, previous) && (p, o) != (poll, option) ==>
                    ScoreStore.ScoreOf(r.0.scores, p, o) == ScoreStore.ScoreOf(s.scores, p, o))
              && r.0.events == s.events + [Event(poll, previous, ScoreStore.ScoreOf(r.0.scores, poll, previous)),
                                           Event(poll, option, ScoreStore.ScoreOf(r.0.scores, poll, option))]
    // new vote: chosen option +1, one event
    ensures r.1.Accepted? && !IsRevote(s, cookie, poll, option) ==>
              && (r.1.voter, poll) !in s.ledger
              && ScoreStore.ScoreOf(r.0.scores, poll, option) == ScoreStore.ScoreOf(s.scores, poll, option) + 1
              && (forall p, o :: (p, o) != (poll, option) ==>
                    ScoreStore.ScoreOf(r.0.scores, p, o) == ScoreStore.ScoreOf(s.scores, p, o))
              && r.0.events == s.events + [Event(poll, option, ScoreStore.ScoreOf(r.0.scores, poll, option))]
  {
    if HasSession(cookie) && (cookie.value, poll) in s.ledger then
      if s.ledger[(cookie.value, poll)] != option then
        var retracted := Retract(s, cookie.value, poll);
        (Cast(retracted, cookie.value, poll, option), Accepted(cookie.value, false))
      else
        (s, DuplicateVote)
    else if HasSession(cookie) then
      (Cast(s, cookie.value, poll, option), Accepted(cookie.value, false))
    else
      (Cast(s, freshId, poll, option), Accepted(freshId, true))
  }

  // ---------------------------------------------------------------------
  // The ledger/score invariant

  /** Number of ledger records that vote for `option` in `poll`. */
  function Count(ledger: Ledger, poll: PollId, option: OptionId): nat {
    |set k | k in ledger && k.1 == poll && ledger[k] == option|
  }

  /** Every score equals the number of records voting for that option. */
  ghost predicate Consistent(s: State) {
    forall p, o :: ScoreStore.ScoreOf(s.scores, p, o) == Count(s.ledger, p, o)
  }

  /** The empty store (no records, no members) satisfies the invariant. */
  lemma InitialStateConsistent()
    ensures Consistent(State(map[], map[], []))
  {
  }

  /** Adding one record for `option` adds one to that option's count and leaves every other count alone. */
  lemma CountAfterInsert(ledger: Ledger, key: (SessionId, PollId), option: OptionId, p: PollId, o: OptionId)
    requires key !in ledger
    ensures Count(ledger[key := option], p, o) == Count(ledger, p, o) + (if (p, o) == (key.1, option) then 1 else 0)
  {
    var before := set k | k in ledger && k.1 == p && ledger[k] == o;
    var updated := ledger[key := option];
    var after := set k | k in updated && k.1 == p && updated[k] == o;
    if (p, o) == (key.1, option) {
      assert after == before + {key};
    } else {
      assert after == before;
    }
  }

  /** Deleting one record takes one from its option's count and leaves every other count alone. */
  lemma CountAfterRemove(ledger: Ledger, key: (SessionId, PollId), p: PollId, o: OptionId)
    requires key in ledger
    ensures Count(ledger - {key}, p, o) == Count(ledger, p, o) - (if (p, o) == (key.1, ledger[key]) then 1 else 0)
  {
    var before := set k | k in ledger && k.1 == p && ledger[k] == o;
    var updated := ledger - {key};
    var after := set k | k in updated && k.1 == p && updated[k] == o;
    if (p, o) == (key.1, ledger[key]) {
      assert before == after + {key};
    } else {
      assert after == before;
    }
  }

  lemma RetractPreservesConsistency(s: State, session: SessionId, poll: PollId)
    requires (session, poll) in s.ledger
    requires Consistent(s)
    ensures Consistent(Retract(s, session, poll))
  {
    var r := Retract(s, session, poll);
    assert r.ledger == s.ledger - {(session, poll)};
    forall p, o ensures ScoreStore.ScoreOf(r.scores, p, o) == Count(r.ledger, p, o) {
      CountAfterRemove(s.ledger, (session, poll), p, o);
    }
  }

  lemma CastPreservesConsistency(s: State, session: SessionId, poll: PollId, option: OptionId)
    requires (session, poll) !in s.ledger
    requires Consistent(s)
    ensures Consistent(Cast(s, session, poll, option))
  {
    var r := Cast(s, session, poll, option);
    assert r.ledger == s.ledger[(session, poll) := option];
    forall p, o ensures ScoreStore.ScoreOf(r.scores, p, o) == Count(r.ledger, p, o) {
      CountAfterInsert(s.ledger, (session, poll), option, p, o);
    }
  }

  /**
   Any submission, accepted or rejected, keeps every score equal to the
   number of records voting for that option.
   */
  lemma SubmitVotePreservesConsistency(s: State, cookie: Option<SessionId>, freshId: SessionId, poll: PollId, option: OptionId)
    requires !HasSession(cookie) ==> (freshId, poll) !in s.ledger
    requires Consistent(s)
    ensures Consistent(SubmitVote(s, cookie, freshId, poll, option).0)
  {
    if IsRevote(s, cookie, poll, option) {
      RetractPreservesConsistency(s, cookie.value, poll);
      CastPreservesConsistency(Retract(s, cookie.value, poll), cookie.value, poll, option);
    } else if !IsDuplicate(s, cookie, poll, option) {
      CastPreservesConsistency(s, if HasSession(cookie) then cookie.value else freshId, poll, option);
    }
  }

  /**
   Every event a submission publishes carries the number of records voting
   for its option once the submission is over, so a subscriber never sees
   a score that the ledger does not back.
   */
  lemma SubmitVoteEventsMatchLedger(s: State, cookie: Option<SessionId>, freshId: SessionId, poll: PollId, option: OptionId)
    requires !HasSession(cookie) ==> (freshId, poll) !in s.ledger
    requires Consistent(s)
    ensures var r := SubmitVote(s, cookie, freshId, poll, option).0;
            && |s.events| <= |r.events|
            && forall i :: |s.events| <= i < |r.events| ==>
                 r.events[i].votes == Count(r.ledger, r.events[i].pollId, r.events[i].pollOptionId)
  {
    var r := SubmitVote(s, cookie, freshId, poll, option).0;
    SubmitVotePreservesConsistency(s, cookie, freshId, poll, option);
    if IsRevote(s, cookie, poll, option) {
      var previous := s.ledger[(cookie.value, poll)];
      assert r.events[|s.events|..] == [Event(poll, previous, ScoreStore.ScoreOf(r.scores, poll, previous)),
                                        Event(poll, option, ScoreStore.ScoreOf(r.scores, poll, option))];
    } else if !IsDuplicate(s, cookie, poll, option) {
      assert r.events[|s.events|..] == [Event(poll, option, ScoreStore.ScoreOf(r.scores, poll, option))];
    }
  }

  /**
   Under the invariant the decrement of a revote never drives a score below
   zero: the option being left holds at least the voter's own record.
   */
  lemma RetractKeepsScoreNonNegative(s: State, session: SessionId, poll: PollId)
    requires (session, poll) in s.ledger
    requires Consistent(s)
    ensures var previous := s.ledger[(session, poll)];
            && ScoreStore.ScoreOf(s.scores, poll, previous) >= 1
            && ScoreStore.ScoreOf(Retract(s, session, poll).scores, poll, previous) >= 0
  {
    var previous := s.ledger[(session, poll)];
    var voters := set k | k in s.ledger && k.1 == poll && s.ledger[k] == previous;
    assert (session, poll) in voters;
    assert |voters| >= 1 by {
      assert voters == (voters - {(session, poll)}) + {(session, poll)};
    }
  }

  /** Under the invariant no score is negative. */
  lemma ConsistentScoresNonNegative(s: State, poll: PollId, option: OptionId)
    requires Consistent(s)
    ensures ScoreStore.ScoreOf(s.scores, poll, option) >= 0
  {
  }

  // ---------------------------------------------------------------------
  // Replaying an accepted vote

  /**
   Sending the same vote again with the same truthy cookie is rejected as a
   duplicate and changes nothing. (A vote that minted an identity is
   covered in module `Handler`: the cookie it sets is signed, so it does not
   read back as the id the vote was recorded under.)
   */
  lemma ReplayIsDuplicate(s: State, cookie: Option<SessionId>, freshId: SessionId, poll: PollId, option: OptionId,
                          nextFreshId: SessionId)
    requires HasSession(cookie)
    ensures var (s', response) := SubmitVote(s, cookie, freshId, poll, option);
            SubmitVote(s', cookie, nextFreshId, poll, option) == (s', DuplicateVote)
  {
  }
}
