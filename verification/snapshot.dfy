/**
 The poll snapshot handler of `GET /poll/:pollId`: look the poll and its
 options up in the catalog, fold the flat ZRANGE ... WITHSCORES reply into
 an option-id -> score table, and report every catalog option with its
 score, 0 when the reply does not mention it.
 */
module Snapshot {
  import Decimal
  import ScoreStore

  type PollId = ScoreStore.PollId
  type OptionId = ScoreStore.OptionId

  /** A catalog option, as selected by the Prisma query (title and id). */
  datatype PollOption = PollOption(id: OptionId, title: string)

  /** A catalog poll with its options in catalog order. */
  datatype Poll = Poll(id: PollId, title: string, options: seq<PollOption>)

  datatype ScoredOption = ScoredOption(id: OptionId, title: string, score: int)

  /** The body `{ poll: { id, title, options: [{ id, title, score }] } }`. */
  datatype PollView = PollView(id: PollId, title: string, options: seq<ScoredOption>)

  /** The view, or the 400 "Poll not found" reply. */
  datatype Fetch = Found(poll: PollView) | PollNotFound

  /** Every poll is filed under its own id, as a lookup by primary key guarantees. */
  predicate KeyedById(catalog: map<PollId, Poll>) {
    forall p :: p in catalog ==> catalog[p].id == p
  }

  /** `i` is the index of a member in a flat reply (even indexes hold members). */
  predicate IsKeyIndex(reply: seq<string>, i: int) {
    0 <= i && i + 1 < |reply| && i % 2 == 0
  }

  /** `i` is the last member index that names `reply[i]`. */
  predicate IsLastKeyIndex(reply: seq<string>, i: int) {
    && IsKeyIndex(reply, i)
    && forall j :: i < j < |reply| && j % 2 == 0 ==> reply[j] != reply[i]
  }

  /** The members a flat reply mentions. */
  function ReplyKeys(reply: seq<string>): set<string> {
    set i | 0 <= i < |reply| && i % 2 == 0 :: reply[i]
  }

  /**
   The `result.reduce(...)` fold: walking the reply from the front, each
   member at an even index is assigned `Number` of the entry after it, so a
   member that occurs twice ends with its later score.
   */
  function Votes(reply: seq<string>): (votes: map<string, int>)
    requires ScoreStore.IsFlatReply(reply)
    ensures votes.Keys == ReplyKeys(reply)
    decreases |reply|
  {
    if |reply| == 0 then map[]
    else
      var n := |reply| - 2;
      DropLastPair(reply);
      Votes(reply[..n])[reply[n] := Decimal.Number(reply[n + 1])]
  }

  /** A member's folded score is the score after its last occurrence in the reply. */
  lemma {:induction false} VotesAtLastKey(reply: seq<string>, i: int)
    requires ScoreStore.IsFlatReply(reply)
    requires IsLastKeyIndex(reply, i)
    ensures reply[i] in Votes(reply)
    ensures Votes(reply)[reply[i]] == Decimal.Number(reply[i + 1])
    decreases |reply|
  {
    var n := |reply| - 2;
    DropLastPair(reply);
    DropLastPairKeepsLastKeys(reply);
    if i != n {
      var front := reply[..n];
      VotesAtLastKey(front, i);
      assert front[i] == reply[i] && front[i + 1] == reply[i + 1];
    }
  }

  /** The fold, stated over the whole reply at once. */
  lemma VotesSpec(reply: seq<string>)
    requires ScoreStore.IsFlatReply(reply)
    ensures forall i :: IsLastKeyIndex(reply, i) ==>
              reply[i] in Votes(reply) && Votes(reply)[reply[i]] == Decimal.Number(reply[i + 1])
  {
    var votes := Votes(reply);
    forall i | IsLastKeyIndex(reply, i)
      ensures reply[i] in votes && votes[reply[i]] == Decimal.Number(reply[i + 1])
    {
      VotesAtLastKey(reply, i);
    }
  }

  /** How a flat reply relates to itself without its last (member, score) pair. */
  lemma DropLastPair(reply: seq<string>)
    requires ScoreStore.IsFlatReply(reply) && |reply| > 0
    ensures ScoreStore.IsFlatReply(reply[..|reply| - 2])
    ensures Decimal.IsDecimal(reply[|reply| - 1])
    ensures ReplyKeys(reply) == ReplyKeys(reply[..|reply| - 2]) + {reply[|reply| - 2]}
  {
    var n := |reply| - 2;
    var front := reply[..n];
    assert forall i :: 0 <= i < n ==> front[i] == reply[i];
    assert ReplyKeys(reply) == ReplyKeys(front) + {reply[n]} by {
      forall k | k in ReplyKeys(reply) ensures k in ReplyKeys(front) + {reply[n]} {
        var i :| 0 <= i < |reply| && i % 2 == 0 && reply[i] == k;
        if i != n {
          assert front[i] == k;
        }
      }
      forall k | k in ReplyKeys(front) ensures k in ReplyKeys(reply) {
        var i :| 0 <= i < n && i % 2 == 0 && front[i] == k;
        assert reply[i] == k;
      }
    }
  }

  /** A last occurrence other than the final pair's is also last in the reply without that pair. */
  lemma DropLastPairKeepsLastKeys(reply: seq<string>)
    requires ScoreStore.IsFlatReply(reply) && |reply| > 0
    ensures forall i :: IsLastKeyIndex(reply, i) && i != |reply| - 2 ==>
              IsLastKeyIndex(reply[..|reply| - 2], i) && reply[i] != reply[|reply| - 2]
  {
    var n := |reply| - 2;
    assert forall i :: 0 <= i < n ==> reply[..n][i] == reply[i];
  }

  /** Score reported for one catalog option: its folded score, or 0 when absent. */
  function ScoreOption(votes: map<string, int>, option: PollOption): ScoredOption {
    ScoredOption(option.id, option.title, if option.id in votes then votes[option.id] else 0)
  }

  /** Every member a flat reply names has a last occurrence. */
  lemma {:induction false} ReplyKeyHasLastIndex(reply: seq<string>, k: string)
    requires ScoreStore.IsFlatReply(reply)
    requires k in ReplyKeys(reply)
    ensures exists j :: IsLastKeyIndex(reply, j) && reply[j] == k
    decreases |reply|
  {
    var n := |reply| - 2;
    DropLastPair(reply);
    if reply[n] == k {
      assert IsLastKeyIndex(reply, n);
    } else {
      var front := reply[..n];
      ReplyKeyHasLastIndex(front, k);
      var j :| IsLastKeyIndex(front, j) && front[j] == k;
      KeepLastKey(reply, j);
    }
  }

  /** A last occurrence in the front of a reply stays last when the final pair names another member. */
  lemma KeepLastKey(reply: seq<string>, j: int)
    requires ScoreStore.IsFlatReply(reply) && |reply| >= 2
    requires IsLastKeyIndex(reply[..|reply| - 2], j)
    requires reply[j] != reply[|reply| - 2]
    ensures IsLastKeyIndex(reply, j)
  {
    var n := |reply| - 2;
    assert reply[..n][j] == reply[j];
    forall i | j < i < |reply| && i % 2 == 0 ensures reply[i] != reply[j] {
      if i < n {
        assert reply[..n][i] == reply[i];
      }
    }
  }

  /**
   A catalog option scored straight from the reply: 0 when the reply never
   names it, otherwise `Number` of the entry after its last occurrence.
   */
  lemma ScoreOptionFromReply(reply: seq<string>, option: PollOption)
    requires ScoreStore.IsFlatReply(reply)
    ensures var r := ScoreOption(Votes(reply), option);
            && r.id == option.id && r.title == option.title
            && (option.id !in ReplyKeys(reply) ==> r.score == 0)
            && (option.id in ReplyKeys(reply) ==>
                  exists j :: IsLastKeyIndex(reply, j) && reply[j] == option.id && r.score == Decimal.Number(reply[j + 1]))
  {
    if option.id in ReplyKeys(reply) {
      ReplyKeyHasLastIndex(reply, option.id);
      var j :| IsLastKeyIndex(reply, j) && reply[j] == option.id;
      VotesAtLastKey(reply, j);
    }
  }

  function ScoreOptions(votes: map<string, int>, options: seq<PollOption>): (r: seq<ScoredOption>)
    ensures |r| == |options|
    ensures forall i :: 0 <= i < |options| ==> r[i] == ScoreOption(votes, options[i])
  {
    if |options| == 0 then [] else [ScoreOption(votes, options[0])] + ScoreOptions(votes, options[1..])
  }

  /**
   GET /poll/:pollId with `reply` the poll's range read. An unknown poll is
   "not found"; otherwise the view lists exactly the catalog's options, in
   catalog order, with their ids and titles, each scored from the reply:
   the score after the member's last occurrence, or 0 when it has none.
   */
  function GetPoll(catalog: map<PollId, Poll>, pollId: PollId, reply: seq<string>): (r: Fetch)
    requires ScoreStore.IsFlatReply(reply)
    ensures r.PollNotFound? <==> pollId !in catalog
    ensures r.Found? && KeyedById(catalog) ==> r.poll.id == pollId
    ensures r.Found? ==>
              var poll := catalog[pollId];
              && r.poll.id == poll.id
              && r.poll.title == poll.title
              && |r.poll.options| == |poll.options|
              && forall i :: 0 <= i < |poll.options| ==>
                   && r.poll.options[i].id == poll.options[i].id
                   && r.poll.options[i].title == poll.options[i].title
                   && (poll.options[i].id !in ReplyKeys(reply) ==> r.poll.options[i].score == 0)
    ensures r.Found? ==>
              forall i, j :: 0 <= i < |r.poll.options| && IsLastKeyIndex(reply, j) && reply[j] == r.poll.options[i].id ==>
                r.poll.options[i].score == Decimal.Number(reply[j + 1])
  {
    if pollId !in catalog then PollNotFound
    else
      var poll := catalog[pollId];
      VotesSpec(reply);
      Found(PollView(poll.id, poll.title, ScoreOptions(Votes(reply), poll.options)))
  }

  // ---------------------------------------------------------------------
  // Flatten, then fold

  /**
   Folding the flattened form of a pair list gives back its pairs: the
   keys are exactly the pairs' keys, and each pair's score survives unless
   a later pair repeats its key (the later assignment wins).
   */
  lemma FoldFlatten(pairs: seq<(OptionId, int)>)
    ensures Votes(ScoreStore.Flatten(pairs)).Keys == (set i | 0 <= i < |pairs| :: pairs[i].0)
    ensures forall i :: 0 <= i < |pairs| && (forall j :: i < j < |pairs| ==> pairs[j].0 != pairs[i].0) ==>
              Votes(ScoreStore.Flatten(pairs))[pairs[i].0] == pairs[i].1
  {
    FlattenKeys(pairs);
    forall i | 0 <= i < |pairs| && (forall j :: i < j < |pairs| ==> pairs[j].0 != pairs[i].0) {
      FoldFlattenAt(pairs, i);
    }
  }

  lemma FoldFlattenAt(pairs: seq<(OptionId, int)>, i: int)
    requires 0 <= i < |pairs|
    requires forall j :: i < j < |pairs| ==> pairs[j].0 != pairs[i].0
    ensures pairs[i].0 in Votes(ScoreStore.Flatten(pairs))
    ensures Votes(ScoreStore.Flatten(pairs))[pairs[i].0] == pairs[i].1
  {
    var reply := ScoreStore.Flatten(pairs);
    var at := 2 * i;
    assert reply[at] == pairs[i].0;
    assert reply[at + 1] == Decimal.Show(pairs[i].1);
    FlattenLastKey(pairs, i);
    VotesAtLastKey(reply, at);
    Decimal.NumberShow(pairs[i].1);
  }

  /** The members of a flattened pair list are the pairs' keys. */
  lemma FlattenKeys(pairs: seq<(OptionId, int)>)
    ensures ReplyKeys(ScoreStore.Flatten(pairs)) == (set i | 0 <= i < |pairs| :: pairs[i].0)
  {
    var reply := ScoreStore.Flatten(pairs);
    forall k | k in ReplyKeys(reply) ensures exists i :: 0 <= i < |pairs| && pairs[i].0 == k {
      var j :| 0 <= j < |reply| && j % 2 == 0 && reply[j] == k;
      assert pairs[j / 2].0 == k;
    }
    forall i | 0 <= i < |pairs| ensures pairs[i].0 in ReplyKeys(reply) {
      assert reply[2 * i] == pairs[i].0 && (2 * i) % 2 == 0;
    }
  }

  /** A pair no later pair repeats sits at a last member index of the flat form. */
  lemma FlattenLastKey(pairs: seq<(OptionId, int)>, i: int)
    requires 0 <= i < |pairs|
    requires forall j :: i < j < |pairs| ==> pairs[j].0 != pairs[i].0
    ensures IsLastKeyIndex(ScoreStore.Flatten(pairs), 2 * i)
  {
    var reply := ScoreStore.Flatten(pairs);
    forall j | 2 * i < j < |reply| && j % 2 == 0 ensures reply[j] != reply[2 * i] {
      assert reply[j] == pairs[j / 2].0 && j / 2 != i;
    }
  }

  /** With distinct keys, as a range read has, the fold is exactly the pairs' map. */
  lemma FoldFlattenDistinct(pairs: seq<(OptionId, int)>)
    requires ScoreStore.DistinctKeys(pairs)
    ensures Votes(ScoreStore.Flatten(pairs)).Keys == (set i | 0 <= i < |pairs| :: pairs[i].0)
    ensures forall i :: 0 <= i < |pairs| ==> Votes(ScoreStore.Flatten(pairs))[pairs[i].0] == pairs[i].1
  {
    FoldFlatten(pairs);
  }
}
