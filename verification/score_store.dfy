/**
 The live score table kept in Redis. Every poll is one sorted set, keyed by
 the poll id, whose members are option ids and whose scores are vote counts.
 Here the whole store is a map from (poll, option) to score; a member that
 is not in the map reads as 0, as ZINCRBY treats it.
 */
module ScoreStore {
  import Decimal

  type PollId = string
  type OptionId = string
  type Scores = map<(PollId, OptionId), int>

  /** Current score of `option` in `poll`'s sorted set; an absent member counts 0. */
  function ScoreOf(scores: Scores, poll: PollId, option: OptionId): int {
    if (poll, option) in scores then scores[(poll, option)] else 0
  }

  /**
   ZINCRBY poll delta option: adds `delta` to the member's score (creating the
   member at 0 first when it is absent) and replies with the new score as text.
   */
  function ZIncrBy(scores: Scores, poll: PollId, option: OptionId, delta: int): (r: (Scores, string))
    ensures r.0.Keys == scores.Keys + {(poll, option)}
    ensures ScoreOf(r.0, poll, option) == ScoreOf(scores, poll, option) + delta
    ensures forall p, o :: (p, o) != (poll, option) ==> ScoreOf(r.0, p, o) == ScoreOf(scores, p, o)
    ensures Decimal.IsDecimal(r.1) && Decimal.Number(r.1) == ScoreOf(r.0, poll, option)
  {
    var updated := ScoreOf(scores, poll, option) + delta;
    Decimal.NumberShow(updated);
    (scores[(poll, option) := updated], Decimal.Show(updated))
  }

  /** No option id occurs twice in a list of (member, score) pairs. */
  predicate DistinctKeys(pairs: seq<(OptionId, int)>) {
    forall i, j :: 0 <= i < j < |pairs| ==> pairs[i].0 != pairs[j].0
  }

  /**
   `pairs` is what ZRANGE poll 0 -1 WITHSCORES lists: every member of the
   poll's sorted set exactly once, each with its current score. (Redis lists
   them by ascending score; the order is immaterial here and left open.)
   */
  ghost predicate IsRangeRead(scores: Scores, poll: PollId, pairs: seq<(OptionId, int)>) {
    && DistinctKeys(pairs)
    && (forall i :: 0 <= i < |pairs| ==>
          (poll, pairs[i].0) in scores && scores[(poll, pairs[i].0)] == pairs[i].1)
    && (forall o :: (poll, o) in scores ==> exists i :: 0 <= i < |pairs| && pairs[i].0 == o)
  }

  /**
   The shape of a WITHSCORES reply: an even-length list alternating a
   member and its score, every score written as decimal text.
   */
  predicate IsFlatReply(reply: seq<string>) {
    && |reply| % 2 == 0
    && forall i :: 0 <= i < |reply| && i % 2 == 1 ==> Decimal.IsDecimal(reply[i])
  }

  /**
   The wire form of a range read: `[member, score, member, score, ...]`.
   The second ensures is that wire form itself, spelled out per position for
   callers; what the form means is the round trip `Snapshot.FoldFlatten`.
   */
  function Flatten(pairs: seq<(OptionId, int)>): (reply: seq<string>)
    ensures |reply| == 2 * |pairs|
    ensures forall j :: 0 <= j < |reply| ==>
              reply[j] == if j % 2 == 0 then pairs[j / 2].0 else Decimal.Show(pairs[j / 2].1)
    ensures IsFlatReply(reply)
  {
    seq(2 * |pairs|, j requires 0 <= j < 2 * |pairs| =>
      if j % 2 == 0 then pairs[j / 2].0 else Decimal.Show(pairs[j / 2].1))
  }
}
