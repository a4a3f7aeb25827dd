/** The vote (`start_voting_command` and `process_vote`): three unposted
    movies are put to a vote, each user votes once, and when the voting
    window closes the first movie with the most votes is published if it
    got any vote at all. `Vote` keeps one record shared by every voter, as
    the handler evidently intends; as written, the voting state lives only
    in the starting user's FSM context, so only that user's press reaches
    the handler (`PressAsWritten`). The random sample is a parameter; the
    ten minute wait is not modelled. */
module Voting {
  import opened Core
  import opened Dict
  import opened Catalog
  import opened Publication

  /** How many movies a vote offers. */
  const CandidateCount: nat := 3

  /** The voting record: the candidates' ids in the order offered, the
      tally `{id: count}`, and the users who have voted. */
  datatype Session = Session(movieIds: seq<int>, votes: Dict<int, int>, voters: set<int>)

  /** A draw of `random.sample(unposted, 3)`: three distinct positions of
      the unposted list. */
  predicate ValidSample(pick: seq<nat>, n: nat)
  {
    && |pick| == CandidateCount
    && (forall k :: 0 <= k < |pick| ==> pick[k] < n)
    && (forall k, l :: 0 <= k < l < |pick| ==> pick[k] != pick[l])
  }

  /** `{id: 0 for id in ids}`: every id a key, each once, all at zero; a
      repeated id keeps its first position, so distinct ids become the
      keys in the order given. */
  function ZeroVotes(ids: seq<int>): (r: Dict<int, int>)
    ensures DistinctKeys(r) && |r| <= |ids|
    ensures forall k :: Get(r, k).Some? <==> k in ids
    ensures forall k :: Get(r, k).Some? ==> Get(r, k).value == 0
    ensures (forall i, j :: 0 <= i < j < |ids| ==> ids[i] != ids[j]) ==> Keys(r) == ids
    decreases |ids|
  {
    if |ids| == 0 then []
    else
      var prefix := ZeroVotes(ids[..|ids| - 1]);
      var id := ids[|ids| - 1];
      ZeroVotesStep(prefix, ids);
      ZeroVotesOrderStep(prefix, ids);
      Put(prefix, id, 0)
  }

  /** Appending a new id to a tally whose keys are the other ids, in
      order, puts it last. */
  lemma ZeroVotesOrderStep(prefix: Dict<int, int>, ids: seq<int>)
    requires |ids| > 0
    requires forall k :: Get(prefix, k).Some? <==> k in ids[..|ids| - 1]
    requires (forall i, j :: 0 <= i < j < |ids| - 1 ==> ids[i] != ids[j]) ==> Keys(prefix) == ids[..|ids| - 1]
    ensures (forall i, j :: 0 <= i < j < |ids| ==> ids[i] != ids[j]) ==> Keys(Put(prefix, ids[|ids| - 1], 0)) == ids
  {
    var id := ids[|ids| - 1];
    if forall i, j :: 0 <= i < j < |ids| ==> ids[i] != ids[j] {
      var front := ids[..|ids| - 1];
      assert forall i, j :: 0 <= i < j < |front| ==> front[i] != front[j];
      assert id !in front;
      assert Get(prefix, id).None?;
      assert IndexOf(prefix, id).None?;
      PutKeys(prefix, id, 0);
      assert ids == front + [id];
    }
  }

  /** Adding `id: 0` for the last id to a zero tally of the other ids
      gives a zero tally of all of them. */
  lemma ZeroVotesStep(prefix: Dict<int, int>, ids: seq<int>)
    requires |ids| > 0
    requires DistinctKeys(prefix) && |prefix| < |ids|
    requires forall k :: Get(prefix, k).Some? <==> k in ids[..|ids| - 1]
    requires forall k :: Get(prefix, k).Some? ==> Get(prefix, k).value == 0
    ensures var r := Put(prefix, ids[|ids| - 1], 0);
            && DistinctKeys(r) && |r| <= |ids|
            && (forall k :: Get(r, k).Some? <==> k in ids)
            && (forall k :: Get(r, k).Some? ==> Get(r, k).value == 0)
  {
    var id := ids[|ids| - 1];
    assert ids == ids[..|ids| - 1] + [id];
    PutEffect(prefix, id, 0);
    PutDistinct(prefix, id, 0);
  }

  /** Distinct ids give one tally entry each. */
  lemma {:induction false} ZeroVotesLength(ids: seq<int>)
    requires forall i, j :: 0 <= i < j < |ids| ==> ids[i] != ids[j]
    ensures |ZeroVotes(ids)| == |ids|
    decreases |ids|
  {
    if |ids| > 0 {
      var prefix := ids[..|ids| - 1];
      var id := ids[|ids| - 1];
      ZeroVotesLength(prefix);
      assert id !in prefix;
      assert IndexOf(ZeroVotes(prefix), id).None?;
    }
  }

  /** A dict with no value other than zero sums to zero. */
  lemma {:induction false} SumOfZeros<K>(d: Dict<K, int>)
    requires forall i :: 0 <= i < |d| ==> d[i].1 == 0
    ensures Sum(d) == 0
    decreases |d|
  {
    if |d| > 0 {
      SumOfZeros(d[1..]);
    }
  }

  /** In a dict with distinct keys, `Get` finds the value at every position. */
  lemma GetAt<K, V>(d: Dict<K, V>, i: nat)
    requires DistinctKeys(d) && i < |d|
    ensures Get(d, d[i].0) == Some(d[i].1)
  {
    IndexOfIs(d, d[i].0, i);
  }

  /** The record is consistent: one vote per voter, so the counts add up
      to the number of voters, and no count is negative. */
  predicate TallyConsistent(s: Session)
  {
    && Sum(s.votes) == |s.voters|
    && forall i :: 0 <= i < |s.votes| ==> s.votes[i].1 >= 0
  }

  datatype StartError = NotEnoughUnposted

  /** `start_voting_command`: fewer than three unposted movies refuses to
      start. Otherwise the sampled unposted movies are the candidates, in
      sample order, every candidate starts at zero votes, nobody has
      voted, and so the record is consistent. With unique ids the tally
      lists the candidates in that same order, which decides ties. */
  function StartVoting(db: Catalog, pick: seq<nat>): (r: Result<Session, StartError>)
    requires |Unposted(db)| >= CandidateCount ==> ValidSample(pick, |Unposted(db)|)
    ensures r.Err? <==> |Unposted(db)| < CandidateCount
    ensures r.Ok? ==>
              && |r.value.movieIds| == CandidateCount
              && (forall k :: 0 <= k < CandidateCount ==>
                    r.value.movieIds[k] == Unposted(db)[pick[k]].id && Unposted(db)[pick[k]] in Unposted(db))
              && (forall id :: Get(r.value.votes, id).Some? <==> id in r.value.movieIds)
              && (forall id :: Get(r.value.votes, id).Some? ==> Get(r.value.votes, id).value == 0)
              && r.value.voters == {}
              && DistinctKeys(r.value.votes)
              && TallyConsistent(r.value)
    ensures r.Ok? && UniqueIds(db) ==> Keys(r.value.votes) == r.value.movieIds
  {
    var unposted := Unposted(db);
    if |unposted| < CandidateCount then Err(NotEnoughUnposted)
    else
      var ids := seq(CandidateCount, k requires 0 <= k < CandidateCount => unposted[pick[k]].id);
      assert UniqueIds(db) ==> forall k, l :: 0 <= k < l < |ids| ==> ids[k] != ids[l] by {
        if UniqueIds(db) {
          UnpostedUniqueIds(db);
          forall k, l | 0 <= k < l < |ids| ensures ids[k] != ids[l] {
            if pick[k] < pick[l] {
              assert unposted[pick[k]].id != unposted[pick[l]].id;
            } else {
              assert unposted[pick[l]].id != unposted[pick[k]].id;
            }
          }
        }
      }
      var votes := ZeroVotes(ids);
      assert forall i :: 0 <= i < |votes| ==> votes[i].1 == 0 by {
        forall i | 0 <= i < |votes| ensures votes[i].1 == 0 {
          GetAt(votes, i);
        }
      }
      SumOfZeros(votes);
      Ok(Session(ids, votes, {}))
  }

  /** With unique ids the unposted entries have unique ids too. */
  lemma {:induction false} UnpostedUniqueIds(db: Catalog)
    requires UniqueIds(db)
    ensures forall k, l :: 0 <= k < l < |Unposted(db)| ==> Unposted(db)[k].id != Unposted(db)[l].id
    decreases |db|
  {
    if |db| > 0 {
      UnpostedUniqueIds(db[1..]);
      var rest := Unposted(db[1..]);
      assert forall e :: e in rest ==> e.id != db[0].1.id by {
        forall e | e in rest ensures e.id != db[0].1.id {
          var j :| 0 <= j < |db[1..]| && Values(db[1..])[j] == e;
          assert db[j + 1].1 == e;
        }
      }
      if db[0].1.lastMessageId.None? {
        assert Unposted(db) == [db[0].1] + rest;
        assert forall l :: 0 < l < |Unposted(db)| ==> Unposted(db)[l] in rest by {
          forall l | 0 < l < |Unposted(db)| ensures Unposted(db)[l] in rest {
            assert Unposted(db)[l] == rest[l - 1];
          }
        }
      }
    }
  }

  /** With unique ids a started vote offers three different movies, and
      the tally has exactly one entry per candidate. */
  lemma CandidatesAreDistinct(db: Catalog, pick: seq<nat>)
    requires UniqueIds(db) && |Unposted(db)| >= CandidateCount && ValidSample(pick, |Unposted(db)|)
    ensures var s := StartVoting(db, pick).value;
            && (forall k, l :: 0 <= k < l < CandidateCount ==> s.movieIds[k] != s.movieIds[l])
            && |s.votes| == CandidateCount
  {
    UnpostedUniqueIds(db);
    var s := StartVoting(db, pick).value;
    assert |s.votes| == CandidateCount by {
      ZeroVotesLength(s.movieIds);
    }
    var u := Unposted(db);
    assert forall k, l :: 0 <= k < l < CandidateCount ==> s.movieIds[k] != s.movieIds[l] by {
      forall k, l | 0 <= k < l < CandidateCount ensures s.movieIds[k] != s.movieIds[l] {
        if pick[k] < pick[l] {
          assert u[pick[k]].id != u[pick[l]].id;
        } else {
          assert u[pick[l]].id != u[pick[k]].id;
        }
      }
    }
  }

  /** What a vote press did. */
  datatype VoteOutcome =
    | AlreadyVoted       // "Ya has votado": nothing changes
    | UnknownCandidate   // `votes[movie_id] += 1` raised KeyError: nothing changes
    | Recorded           // "¡Voto registrado!"

  /** `process_vote`: a user who already voted changes nothing, and neither
      does a vote for an id that is not a candidate (the lookup raises
      before the voter is added). Otherwise that candidate's count rises
      by exactly one, the user joins the voters, and every other count
      and the candidate list stay as they were. */
  function Vote(s: Session, voter: int, movieId: int): (r: (Session, VoteOutcome))
    ensures voter in s.voters ==> r == (s, AlreadyVoted)
    ensures voter !in s.voters && Get(s.votes, movieId).None? ==> r == (s, UnknownCandidate)
    ensures r.1.Recorded? <==> voter !in s.voters && Get(s.votes, movieId).Some?
    ensures r.1.Recorded? ==>
              && r.0.movieIds == s.movieIds
              && r.0.voters == s.voters + {voter}
              && Keys(r.0.votes) == Keys(s.votes)
              && Get(r.0.votes, movieId) == Some(Get(s.votes, movieId).value + 1)
              && (forall k :: k != movieId ==> Get(r.0.votes, k) == Get(s.votes, k))
  {
    if voter in s.voters then (s, AlreadyVoted)
    else if Get(s.votes, movieId).None? then (s, UnknownCandidate)
    else (Session(s.movieIds, Increment(s.votes, movieId), s.voters + {voter}), Recorded)
  }

  /** Every vote press keeps the record consistent: the counts still add
      up to the number of voters and none is negative. */
  lemma VoteKeepsTally(s: Session, voter: int, movieId: int)
    requires TallyConsistent(s)
    ensures TallyConsistent(Vote(s, voter, movieId).0)
  {
    var r := Vote(s, voter, movieId).0;
    if voter !in s.voters && Get(s.votes, movieId).Some? {
      assert |r.voters| == |s.voters| + 1;
    }
  }

  /** Any run of vote presses from a freshly started vote leaves a
      consistent record: counts always sum to the number of voters. */
  lemma {:induction false} VotesKeepTally(s: Session, presses: seq<(int, int)>)
    requires TallyConsistent(s)
    ensures TallyConsistent(ApplyVotes(s, presses))
    decreases |presses|
  {
    if |presses| > 0 {
      VoteKeepsTally(s, presses[0].0, presses[0].1);
      VotesKeepTally(Vote(s, presses[0].0, presses[0].1).0, presses[1..]);
    }
  }

  /** The record after a sequence of `(voter, movie id)` presses. */
  function ApplyVotes(s: Session, presses: seq<(int, int)>): Session
    decreases |presses|
  {
    if |presses| == 0 then s else ApplyVotes(Vote(s, presses[0].0, presses[0].1).0, presses[1..])
  }

  // ---------------------------------------------------------------------
  // `start_voting_command` sets `VotingStates.waiting_for_votes` in the FSM
  // context of the user who started the vote, and `process_vote` is
  // registered with that state as a filter. The dispatcher keeps one FSM
  // context per user in each chat, so only the starter's presses reach it.

  /** A vote press as the dispatcher routes it: a press by anyone but the
      user who started the vote never reaches `process_vote` (`None`) and
      changes nothing; the starter's press is handled like any vote. */
  function PressAsWritten(s: Session, starter: int, voter: int, movieId: int): (r: (Session, Option<VoteOutcome>))
    ensures voter != starter ==> r == (s, None)
    ensures voter == starter ==> r.1 == Some(Vote(s, voter, movieId).1) && r.0 == Vote(s, voter, movieId).0
  {
    if voter != starter then (s, None)
    else
      var (t, outcome) := Vote(s, voter, movieId);
      (t, Some(outcome))
  }

  /** The record after a sequence of presses, as the dispatcher routes them. */
  function ApplyPressesAsWritten(s: Session, starter: int, presses: seq<(int, int)>): Session
    decreases |presses|
  {
    if |presses| == 0 then s
    else ApplyPressesAsWritten(PressAsWritten(s, starter, presses[0].0, presses[0].1).0, starter, presses[1..])
  }

  /** The discrepancy: whoever presses, a vote started with no voters ends
      with at most the starter among its voters, so its counts add up to at
      most one. The audience's votes are never counted. */
  lemma {:induction false} OnlyTheStarterVotes(s: Session, starter: int, presses: seq<(int, int)>)
    requires TallyConsistent(s) && s.voters <= {starter}
    ensures var r := ApplyPressesAsWritten(s, starter, presses);
            && TallyConsistent(r) && r.voters <= {starter} && Sum(r.votes) <= 1
    decreases |presses|
  {
    if |presses| == 0 {
      assert s.voters == {} || s.voters == {starter};
    } else {
      var t := PressAsWritten(s, starter, presses[0].0, presses[0].1).0;
      VoteKeepsTally(s, presses[0].0, presses[0].1);
      OnlyTheStarterVotes(t, starter, presses[1..]);
    }
  }

  /** For instance, users 5 and 6 each vote for movie 10 in a vote started
      by user 1: as written nothing is counted, while a shared record
      gives movie 10 two votes. */
  lemma AudienceVotesAreLost()
    ensures var s := Session([10, 20, 30], [(10, 0), (20, 0), (30, 0)], {});
            && ApplyPressesAsWritten(s, 1, [(5, 10), (6, 10)]) == s
            && Get(ApplyVotes(s, [(5, 10), (6, 10)]).votes, 10) == Some(2)
  {
    var s := Session([10, 20, 30], [(10, 0), (20, 0), (30, 0)], {});
    assert Get(s.votes, 10) == Some(0);
    var s1 := Vote(s, 5, 10).0;
    assert Get(s1.votes, 10) == Some(1);
    assert ApplyVotes(s, [(5, 10), (6, 10)]) == Vote(s1, 6, 10).0;
  }

  /** `max(votes, key=votes.get)`: the position of the first key, in dict
      order, whose count is the largest. Every count is at most the
      winner's and every earlier count is strictly smaller. */
  function FirstMax(votes: Dict<int, int>): (w: nat)
    requires |votes| > 0
    ensures w < |votes|
    ensures forall k :: 0 <= k < |votes| ==> votes[k].1 <= votes[w].1
    ensures forall k :: 0 <= k < w ==> votes[k].1 < votes[w].1
    decreases |votes|
  {
    if |votes| == 1 then 0
    else
      var w := FirstMax(votes[..|votes| - 1]);
      if votes[|votes| - 1].1 > votes[w].1 then |votes| - 1 else w
  }

  /** The two properties of `FirstMax` single out one position: any
      position that has the largest count and beats every earlier one is
      the winner. */
  lemma FirstMaxIsUnique(votes: Dict<int, int>, w: nat)
    requires w < |votes|
    requires forall k :: 0 <= k < |votes| ==> votes[k].1 <= votes[w].1
    requires forall k :: 0 <= k < w ==> votes[k].1 < votes[w].1
    ensures FirstMax(votes) == w
  {
  }

  /** How a vote ended. */
  datatype Resolution =
    | NoWinner                                          // "terminado sin votos"
    | Won(id: int, count: int, reply: Option<SendReply>)  // announced; `reply` is the post's outcome, `None` without TMDB details

  /** The close of `start_voting_command`. An empty tally, a winner with
      no vote, or a winner no longer in the catalog ends without a winner
      and without touching the catalog. Otherwise the winner is the first
      candidate with the most votes; it is published when TMDB has its
      details, and a successful post is recorded on its entry. */
  function Resolve(db: Catalog, s: Session, detailsFound: bool, deleteOk: bool, sent: Option<int>): (r: (Catalog, Resolution))
    ensures r.1.NoWinner? ==> r.0 == db
    ensures (forall k :: 0 <= k < |s.votes| ==> s.votes[k].1 <= 0) ==> r == (db, NoWinner)
    ensures |s.votes| > 0 && s.votes[FirstMax(s.votes)].1 > 0 && MovieById(db, s.votes[FirstMax(s.votes)].0).Some? ==>
              r.1.Won? && (r.1.id, r.1.count) == s.votes[FirstMax(s.votes)]
    ensures r.1.Won? ==>
              && r.1.count > 0
              && MovieById(db, r.1.id).Some?
              && (exists w :: 0 <= w < |s.votes| && s.votes[w] == (r.1.id, r.1.count)
                    && (forall k :: 0 <= k < |s.votes| ==> s.votes[k].1 <= r.1.count)
                    && (forall k :: 0 <= k < w ==> s.votes[k].1 < r.1.count))
    ensures r.1.Won? && !detailsFound ==> r.0 == db && r.1.reply.None?
    ensures r.1.Won? && detailsFound ==> r.1.reply == Some(SendReply(sent.Some?, sent))
    ensures r.1.Won? && detailsFound && sent.Some? ==>
              MovieById(r.0, r.1.id).Some? && MovieById(r.0, r.1.id).value.lastMessageId == sent
    ensures r.1.Won? ==> PostsSet(db, r.0, r.1.id, {None, sent})
    ensures r.1.Won? && sent.None? && (!deleteOk || DeleteRequest(db, r.1.id).None?) ==> r.0 == db
  {
    if |s.votes| == 0 then (db, NoWinner)
    else
      var w := FirstMax(s.votes);
      var (id, count) := s.votes[w];
      if MovieById(db, id).None? || count <= 0 then (db, NoWinner)
      else if !detailsFound then (db, Won(id, count, None))
      else
        PublishIsFoundById(db, id, deleteOk, sent);
        var (d, reply) := Publish(db, id, deleteOk, sent);
        (d, Won(id, count, Some(reply)))
  }

  /** A vote that gets at least one vote for a candidate still in the
      catalog always has a winner. */
  lemma SomeVoteMeansWinner(db: Catalog, s: Session, detailsFound: bool, deleteOk: bool, sent: Option<int>)
    requires exists k :: 0 <= k < |s.votes| && s.votes[k].1 > 0
    requires forall k :: 0 <= k < |s.votes| ==> MovieById(db, s.votes[k].0).Some?
    ensures Resolve(db, s, detailsFound, deleteOk, sent).1.Won?
  {
    var k :| 0 <= k < |s.votes| && s.votes[k].1 > 0;
    var w := FirstMax(s.votes);
    assert s.votes[k].1 <= s.votes[w].1;
  }

  /** Presses never change the candidates or reorder the tally. */
  lemma {:induction false} VotesKeepOrder(s: Session, presses: seq<(int, int)>)
    ensures ApplyVotes(s, presses).movieIds == s.movieIds
    ensures Keys(ApplyVotes(s, presses).votes) == Keys(s.votes)
    ensures DistinctKeys(s.votes) ==> DistinctKeys(ApplyVotes(s, presses).votes)
    decreases |presses|
  {
    if |presses| > 0 {
      var s1 := Vote(s, presses[0].0, presses[0].1).0;
      VotesKeepOrder(s1, presses[1..]);
      if DistinctKeys(s.votes) {
        forall i, j | 0 <= i < j < |s1.votes| ensures s1.votes[i].0 != s1.votes[j].0 {
          assert s1.votes[i].0 == Keys(s1.votes)[i] == Keys(s.votes)[i];
          assert s1.votes[j].0 == Keys(s1.votes)[j] == Keys(s.votes)[j];
        }
      }
    }
  }

  /** When the tally lists the candidates in the order offered, the winner
      is the first candidate, in that order, with the most votes. */
  lemma WinnerInCandidateOrder(db: Catalog, s: Session, detailsFound: bool, deleteOk: bool, sent: Option<int>)
    requires Keys(s.votes) == s.movieIds && DistinctKeys(s.votes)
    ensures var r := Resolve(db, s, detailsFound, deleteOk, sent);
            r.1.Won? ==>
              exists w :: 0 <= w < |s.movieIds| && s.movieIds[w] == r.1.id
                && (forall k :: 0 <= k < |s.movieIds| ==>
                      Get(s.votes, s.movieIds[k]).Some? && Get(s.votes, s.movieIds[k]).value <= r.1.count)
                && (forall k :: 0 <= k < w ==>
                      Get(s.votes, s.movieIds[k]).Some? && Get(s.votes, s.movieIds[k]).value < r.1.count)
  {
    var r := Resolve(db, s, detailsFound, deleteOk, sent);
    if r.1.Won? {
      assert (r.1.id, r.1.count) == s.votes[FirstMax(s.votes)];
      FirstMaxInCandidateOrder(s);
    }
  }

  /** `FirstMax` read through the candidates: its position holds a
      candidate whose count no candidate beats and every earlier
      candidate falls short of. */
  lemma FirstMaxInCandidateOrder(s: Session)
    requires Keys(s.votes) == s.movieIds && DistinctKeys(s.votes) && |s.votes| > 0
    ensures var w := FirstMax(s.votes);
            && w < |s.movieIds| && s.movieIds[w] == s.votes[w].0
            && (forall k :: 0 <= k < |s.movieIds| ==>
                  Get(s.votes, s.movieIds[k]).Some? && Get(s.votes, s.movieIds[k]).value <= s.votes[w].1)
            && (forall k :: 0 <= k < w ==>
                  Get(s.votes, s.movieIds[k]).Some? && Get(s.votes, s.movieIds[k]).value < s.votes[w].1)
  {
    CandidateCounts(s);
  }

  /** When the tally lists the candidates in order, the count of the k-th
      candidate sits at position k. */
  lemma CandidateCounts(s: Session)
    requires Keys(s.votes) == s.movieIds && DistinctKeys(s.votes)
    ensures |s.movieIds| == |s.votes|
    ensures forall k :: 0 <= k < |s.movieIds| ==>
              s.movieIds[k] == s.votes[k].0 && Get(s.votes, s.movieIds[k]) == Some(s.votes[k].1)
  {
    forall k | 0 <= k < |s.movieIds|
      ensures s.movieIds[k] == s.votes[k].0 && Get(s.votes, s.movieIds[k]) == Some(s.votes[k].1)
    {
      assert s.movieIds[k] == Keys(s.votes)[k];
      GetAt(s.votes, k);
    }
  }

  /** A started vote, after any presses, keeps its candidates in sample
      order and its tally in that same order: `{id: 0 for id in ids}`
      keeps the sample's order and presses only change counts. With
      `WinnerInCandidateOrder`, a tie goes to the candidate offered first. */
  lemma StartedVoteKeepsOrder(db: Catalog, pick: seq<nat>, presses: seq<(int, int)>)
    requires UniqueIds(db) && |Unposted(db)| >= CandidateCount && ValidSample(pick, |Unposted(db)|)
    ensures var s := ApplyVotes(StartVoting(db, pick).value, presses);
            && s.movieIds == StartVoting(db, pick).value.movieIds
            && Keys(s.votes) == s.movieIds
            && DistinctKeys(s.votes)
  {
    VotesKeepOrder(StartVoting(db, pick).value, presses);
  }
}
