/**
 How the two handlers fit together: a snapshot read from a score table the
 vote handler has kept consistent reports, for every catalog option, the
 number of voters whose current record chooses it.
 */
module Consistency {
  import opened Wrappers
  import ScoreStore
  import Tally
  import Snapshot

  /**
   GET /poll/:pollId over a complete range read of a consistent store:
   the poll is found and every listed option's score is the number of
   ledger records for it, whether or not Redis holds a member for it.
   */
  lemma SnapshotReportsLedgerCounts(s: Tally.State, catalog: map<ScoreStore.PollId, Snapshot.Poll>,
                                    pollId: ScoreStore.PollId, pairs: seq<(ScoreStore.OptionId, int)>)
    requires Tally.Consistent(s)
    requires ScoreStore.IsRangeRead(s.scores, pollId, pairs)
    requires pollId in catalog
    ensures var r := Snapshot.GetPoll(catalog, pollId, ScoreStore.Flatten(pairs));
            && r.Found?
            && forall i :: 0 <= i < |r.poll.options| ==>
                 r.poll.options[i].score == Tally.Count(s.ledger, pollId, r.poll.options[i].id)
  {
    var reply := ScoreStore.Flatten(pairs);
    var votes := Snapshot.Votes(reply);
    var r := Snapshot.GetPoll(catalog, pollId, reply);
    Snapshot.FoldFlattenDistinct(pairs);
    forall i | 0 <= i < |r.poll.options|
      ensures r.poll.options[i].score == Tally.Count(s.ledger, pollId, r.poll.options[i].id)
    {
      var option := r.poll.options[i].id;
      assert r.poll.options[i] == Snapshot.ScoreOption(votes, catalog[pollId].options[i]);
      if option in votes {
        var j :| 0 <= j < |pairs| && pairs[j].0 == option;
        assert r.poll.options[i].score == pairs[j].1;
      } else {
        assert (pollId, option) !in s.scores;
      }
    }
  }

  /**
   Poll p1 with options A and B. v1 votes A, v2 votes B, then v1 moves to
   B: the scores end at A 0, B 2, and the move publishes (A, 0) then (B, 2).
   */
  lemma RevoteExample()
    ensures var empty := Tally.State(map[], map[], []);
            var (s1, r1) := Tally.SubmitVote(empty, Some("v1"), "", "p1", "A");
            var (s2, r2) := Tally.SubmitVote(s1, Some("v2"), "", "p1", "B");
            var (s3, r3) := Tally.SubmitVote(s2, Some("v1"), "", "p1", "B");
            && r1 == Tally.Accepted("v1", false)
            && r3 == Tally.Accepted("v1", false)
            && ScoreStore.ScoreOf(s3.scores, "p1", "A") == 0
            && ScoreStore.ScoreOf(s3.scores, "p1", "B") == 2
            && s3.events[|s2.events|..] == [Tally.Event("p1", "A", 0), Tally.Event("p1", "B", 2)]
  {
  }
}
