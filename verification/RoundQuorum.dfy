/** getBlockInfoByRound and validateChain in zcncore/transaction_base.go: a header is taken once a quarter of the
    sharders report its hash, and the confirmed block is followed until enough blocks extend it. */
module RoundQuorums {
  import opened BlockHashing
  import opened Consensus

  /** A response without status 200, one that does not parse, or a header. */
  datatype RoundReply = BadStatus | Unparsable | Block(header: Header)

  datatype RoundResult = Found(header: Header) | TooManyFailures | NoConsensus

  predicate IsFailure(reply: RoundReply) {
    !reply.Block? || reply.header.hash == ""
  }

  function Failures(replies: seq<RoundReply>): nat {
    if replies == [] then 0
    else Failures(replies[..|replies| - 1]) + if IsFailure(replies[|replies| - 1]) then 1 else 0
  }

  predicate VotesFor(reply: RoundReply, hash: string) {
    reply.Block? && reply.header.hash == hash
  }

  function Votes(replies: seq<RoundReply>, hash: string): nat {
    if replies == [] then 0
    else Votes(replies[..|replies| - 1], hash) + if VotesFor(replies[|replies| - 1], hash) then 1 else 0
  }

  predicate GiveUp(failures: nat, sharders: nat) {
    sharders > 0 && failures * 100 / sharders > 100 - CONSENSUS_THRESH
  }

  /** The source gives up beyond three quarters, rounded down to whole per cents. */
  lemma GiveUpIff(failures: nat, sharders: nat)
    ensures GiveUp(failures, sharders) <==> sharders > 0 && 25 * failures >= 19 * sharders
  {
    if sharders > 0 {
      DivAtLeast(failures * 100, sharders, 76);
    }
  }

  lemma MoreVotes(a: nat, b: nat, n: nat)
    requires a <= b && Quorum(a, n)
    ensures Quorum(b, n)
  {
    DivAtLeast(a * 100, n, CONSENSUS_THRESH);
    DivAtLeast(b * 100, n, CONSENSUS_THRESH);
  }

  /** A reply counts as a failure or as one vote. */
  lemma {:induction false} VotesAndFailures(replies: seq<RoundReply>, hash: string)
    requires hash != ""
    ensures Votes(replies, hash) + Failures(replies) <= |replies|
  {
    if replies != [] {
      VotesAndFailures(replies[..|replies| - 1], hash);
    }
  }

  lemma {:induction false} PrefixCounts(replies: seq<RoundReply>, i: nat, hash: string)
    requires i <= |replies|
    ensures Failures(replies[..i]) <= Failures(replies) && Votes(replies[..i], hash) <= Votes(replies, hash)
    decreases |replies| - i
  {
    if i < |replies| {
      PrefixCounts(replies, i + 1, hash);
      assert replies[..i + 1][..i] == replies[..i];
    } else {
      assert replies[..i] == replies;
    }
  }

  /** Giving up is safe: whatever the sharders that are still to answer say, no hash can reach the quorum. */
  lemma AbortIsSafe(seen: seq<RoundReply>, rest: seq<RoundReply>, hash: string)
    requires hash != "" && GiveUp(Failures(seen), |seen + rest|)
    ensures !Quorum(Votes(seen + rest, hash), |seen + rest|)
  {
    hide GiveUp, Quorum;
    var all := seen + rest;
    assert all[..|seen|] == seen;
    PrefixCounts(all, |seen|, hash);
    VotesAndFailures(all, hash);
    GiveUpIff(Failures(seen), |all|);
    QuorumIsQuarter(Votes(all, hash), |all|);
  }

  /** This header is the i-th reply and brings its hash to the quorum, which no hash had before. */
  ghost predicate FirstQuorumAt(replies: seq<RoundReply>, i: nat, header: Header)
    requires i < |replies|
  {
    && replies[i] == Block(header)
    && Quorum(Votes(replies[..i + 1], header.hash), |replies|)
    && forall hash :: hash != "" ==> !Quorum(Votes(replies[..i], hash), |replies|)
  }

  lemma NoQuorumYet(replies: seq<RoundReply>, i: nat, max: nat)
    requires i <= |replies| && !Quorum(max, |replies|)
    requires forall h :: h != "" ==> Votes(replies[..i], h) <= max
    ensures forall h :: h != "" ==> !Quorum(Votes(replies[..i], h), |replies|)
  {
    forall h | h != ""
      ensures !Quorum(Votes(replies[..i], h), |replies|)
    {
      if Quorum(Votes(replies[..i], h), |replies|) {
        MoreVotes(Votes(replies[..i], h), max, |replies|);
      }
    }
  }

  /** A header with the hash is a vote for it; a reply without a header, or with an empty hash, is a failure. */
  lemma CountsOneByOne(replies: seq<RoundReply>, reply: RoundReply, hash: string)
    ensures Votes([], hash) == 0 && Failures([]) == 0
    ensures Votes(replies + [reply], hash)
            == Votes(replies, hash) + match reply case Block(h) => (if h.hash == hash then 1 else 0) case _ => 0
    ensures Failures(replies + [reply])
            == Failures(replies) + match reply case Block(h) => (if h.hash == "" then 1 else 0) case _ => 1
  {
    assert (replies + [reply])[..|replies|] == replies;
  }

  /** The replies, one from each sharder, are handled in the order in which they arrive. */
  method GetBlockInfoByRound(replies: seq<RoundReply>) returns (r: RoundResult)
    ensures r.Found? ==> exists i :: 0 <= i < |replies| && FirstQuorumAt(replies, i, r.header)
    ensures r.Found? ==> r.header.hash != "" && Quorum(Votes(replies, r.header.hash), |replies|)
    ensures r.Found? <==> exists hash :: hash != "" && Quorum(Votes(replies, hash), |replies|)
    ensures r.Found? <==> replies != [] && exists hash :: hash != "" && 4 * Votes(replies, hash) >= |replies|
    ensures r.TooManyFailures? <==> exists i :: 0 <= i < |replies| && 25 * Failures(replies[..i]) >= 19 * |replies|
  {
    var numSharders := |replies|;
    QuorumOfSome(replies);
    var maxConsensus, failedCount := 0, 0;
    var roundConsensus: map<string, nat> := map[];
    var i := 0;
    while i < numSharders
      invariant 0 <= i <= numSharders
      invariant failedCount == Failures(replies[..i])
      invariant forall h :: h != "" ==> Count(roundConsensus, h) == Votes(replies[..i], h) <= maxConsensus
      invariant !Quorum(maxConsensus, numSharders)
      invariant forall j :: 0 <= j < i ==> !GiveUp(Failures(replies[..j]), numSharders)
    {
      var rsp := replies[i];
      assert replies[..i + 1][..i] == replies[..i];
      GiveUpIff(failedCount, numSharders);
      if GiveUp(failedCount, numSharders) {
        NoQuorumAfterAbort(replies, i);
        return TooManyFailures;
      }
      if IsFailure(rsp) {
        failedCount := failedCount + 1;
      } else {
        var h := rsp.header.hash;
        roundConsensus := roundConsensus[h := Count(roundConsensus, h) + 1];
        if roundConsensus[h] > maxConsensus {
          NoQuorumYet(replies, i, maxConsensus);
          maxConsensus := roundConsensus[h];
          if Quorum(maxConsensus, numSharders) {
            PrefixCounts(replies, i + 1, h);
            MoreVotes(maxConsensus, Votes(replies, h), numSharders);
            assert FirstQuorumAt(replies, i, rsp.header);
            NoAbortWithQuorum(replies, h);
            return Found(rsp.header);
          }
        }
      }
      i := i + 1;
    }
    assert replies[..i] == replies;
    NoQuorumYet(replies, i, maxConsensus);
    NeverGaveUp(replies);
    return NoConsensus;
  }

  lemma QuorumOfSome(replies: seq<RoundReply>)
    ensures (exists hash :: hash != "" && Quorum(Votes(replies, hash), |replies|))
            <==> replies != [] && exists hash :: hash != "" && 4 * Votes(replies, hash) >= |replies|
  {
    forall hash: string
      ensures Quorum(Votes(replies, hash), |replies|) <==> replies != [] && 4 * Votes(replies, hash) >= |replies|
    {
      QuorumIsQuarter(Votes(replies, hash), |replies|);
    }
  }

  lemma NeverGaveUp(replies: seq<RoundReply>)
    requires forall i :: 0 <= i < |replies| ==> !GiveUp(Failures(replies[..i]), |replies|)
    ensures forall i :: 0 <= i < |replies| ==> 25 * Failures(replies[..i]) < 19 * |replies|
  {
    forall i | 0 <= i < |replies|
      ensures 25 * Failures(replies[..i]) < 19 * |replies|
    {
      GiveUpIff(Failures(replies[..i]), |replies|);
    }
  }

  /** Where some hash has a quorum in the end, the loop never gives up on the way. */
  lemma NoAbortWithQuorum(replies: seq<RoundReply>, hash: string)
    requires hash != "" && Quorum(Votes(replies, hash), |replies|)
    ensures forall i :: 0 <= i < |replies| ==> 25 * Failures(replies[..i]) < 19 * |replies|
  {
    forall i | 0 <= i < |replies|
      ensures !GiveUp(Failures(replies[..i]), |replies|)
    {
      if GiveUp(Failures(replies[..i]), |replies|) {
        assert replies[..i] + replies[i..] == replies;
        AbortIsSafe(replies[..i], replies[i..], hash);
      }
    }
    NeverGaveUp(replies);
  }

  /** For example, one vote of four finds its header, although three replies failed before it. */
  method OneVoteOfFour(header: Header) returns (r: RoundResult)
    requires header.hash != ""
    ensures r == Found(header)
  {
    var replies := [BadStatus, Unparsable, BadStatus, Block(header)];
    assert replies[..3] == [BadStatus, Unparsable, BadStatus];
    VotesConcat(replies[..3], [Block(header)], header.hash);
    assert replies[..3] + [Block(header)] == replies;
    assert Votes([Block(header)], header.hash) >= 1;
    r := GetBlockInfoByRound(replies);
    assert 4 * Votes(replies, header.hash) >= |replies|;
  }

  lemma NoQuorumAfterAbort(replies: seq<RoundReply>, i: nat)
    requires i <= |replies| && GiveUp(Failures(replies[..i]), |replies|)
    ensures forall h :: h != "" ==> !Quorum(Votes(replies, h), |replies|)
  {
    assert replies[..i] + replies[i..] == replies;
    forall h | h != ""
      ensures !Quorum(Votes(replies, h), |replies|)
    {
      AbortIsSafe(replies[..i], replies[i..], h);
    }
  }

  // ----- the arrival order does not matter

  lemma {:induction false} VotesByMultiset(replies: seq<RoundReply>, others: seq<RoundReply>, hash: string)
    requires multiset(replies) == multiset(others)
    ensures Votes(replies, hash) == Votes(others, hash)
    decreases |replies|
  {
    if replies == [] {
      assert |multiset(others)| == 0;
    } else {
      var last := replies[|replies| - 1];
      assert replies == replies[..|replies| - 1] + [last];
      assert last in multiset(others);
      var k :| 0 <= k < |others| && others[k] == last;
      var without := others[..k] + others[k + 1..];
      assert others == others[..k] + [last] + others[k + 1..];
      assert multiset(without) == multiset(others) - multiset{last};
      VotesByMultiset(replies[..|replies| - 1], without, hash);
      VotesConcat(others[..k], [last], hash);
      VotesConcat(others[..k] + [last], others[k + 1..], hash);
      VotesConcat(others[..k], others[k + 1..], hash);
      assert Votes([last], hash) == if VotesFor(last, hash) then 1 else 0;
    }
  }

  lemma {:induction false} VotesConcat(a: seq<RoundReply>, b: seq<RoundReply>, hash: string)
    ensures Votes(a + b, hash) == Votes(a, hash) + Votes(b, hash)
    decreases |b|
  {
    if b == [] {
      assert a + b == a;
    } else {
      assert (a + b)[..|a + b| - 1] == a + b[..|b| - 1];
      VotesConcat(a, b[..|b| - 1], hash);
    }
  }

  /** Whether a header is found depends on the replies and not on their order. */
  lemma FoundInAnyOrder(replies: seq<RoundReply>, others: seq<RoundReply>, hash: string)
    requires multiset(replies) == multiset(others)
    ensures Quorum(Votes(replies, hash), |replies|) <==> Quorum(Votes(others, hash), |others|)
  {
    VotesByMultiset(replies, others, hash);
    assert |replies| == |multiset(replies)| == |multiset(others)| == |others|;
  }

  // ----- validateChain

  /** What getBlockInfoByRound gives: a header, or an error. */
  datatype Fetch = Fetched(header: Header) | FetchError

  /** Returned: the loop ended with this result. Waiting: it needs more than the replies so far. */
  datatype ChainResult = Returned(valid: bool) | Waiting

  /** Each block carries the hash it has after the block before it. */
  ghost predicate IsLinked(hash: string -> string, blocks: seq<Header>) {
    forall i :: 0 < i < |blocks| ==> IsBlockExtends(hash, blocks[i - 1].hash, blocks[i])
  }

  /** The confirmed block and the replies that extend it, taken greedily; errors and other blocks are passed over. */
  function Followed(hash: string -> string, confirmed: Header, fetches: seq<Fetch>): (blocks: seq<Header>)
    ensures |blocks| >= 1 && blocks[0] == confirmed
  {
    if fetches == [] then [confirmed]
    else
      var blocks := Followed(hash, confirmed, fetches[..|fetches| - 1]);
      Linked(hash, blocks, fetches[|fetches| - 1])
  }

  /** The blocks with the fetched one added if it extends the last of them. */
  function Linked(hash: string -> string, blocks: seq<Header>, fetch: Fetch): seq<Header>
    requires |blocks| >= 1
  {
    if fetch.Fetched? && IsBlockExtends(hash, blocks[|blocks| - 1].hash, fetch.header) then blocks + [fetch.header] else blocks
  }

  /** Every block that was followed carries the hash of its own parts with the hash of the block before it in second
      place. */
  lemma {:induction false} FollowedIsLinked(hash: string -> string, confirmed: Header, fetches: seq<Fetch>)
    ensures var blocks := Followed(hash, confirmed, fetches);
            IsLinked(hash, blocks) && forall i :: 0 < i < |blocks| ==>
              blocks[i].hash == hash(HashedText(blocks[i - 1].hash, blocks[i]))
    decreases |fetches|
  {
    hide IsBlockExtends, HashedText;
    if fetches != [] {
      FollowedIsLinked(hash, confirmed, fetches[..|fetches| - 1]);
    }
    var blocks := Followed(hash, confirmed, fetches);
    forall i | 0 < i < |blocks|
      ensures blocks[i].hash == hash(HashedText(blocks[i - 1].hash, blocks[i]))
    {
      ExtendsByText(hash, blocks[i - 1].hash, blocks[i]);
    }
  }

  /** A block that hashes another predecessor is not linked: the loop goes on waiting. */
  method UnlinkedIsPassedOver(hash: string -> string, confirmBlock: Header, b: Header) returns (r: ChainResult)
    requires b.hash != hash(HashedText(confirmBlock.hash, b))
    ensures r.Waiting?
  {
    var fetches := [Fetched(b)];
    ExtendsByText(hash, confirmBlock.hash, b);
    FollowedStep(hash, confirmBlock, fetches, 0);
    assert fetches[..0] == [] && fetches[..1] == fetches;
    var blocks, used;
    r, blocks, used := ValidateChain(hash, confirmBlock, 2, fetches);
  }

  lemma FollowedStep(hash: string -> string, confirmed: Header, fetches: seq<Fetch>, used: nat)
    requires used < |fetches|
    ensures Followed(hash, confirmed, fetches[..used + 1])
            == Linked(hash, Followed(hash, confirmed, fetches[..used]), fetches[used])
  {
    assert fetches[..used + 1][..used] == fetches[..used];
  }

  /** After this many replies the loop has just handled a header and has enough blocks. */
  ghost predicate EnoughAfter(hash: string -> string, confirmed: Header, required: int, fetches: seq<Fetch>, used: nat)
    requires used <= |fetches|
  {
    used > 0 && fetches[used - 1].Fetched? && |Followed(hash, confirmed, fetches[..used])| >= required
  }

  ghost predicate NotEnoughUpTo(hash: string -> string, confirmed: Header, required: int, fetches: seq<Fetch>, k: nat)
    requires k <= |fetches|
  {
    forall u :: 0 <= u <= k ==> !EnoughAfter(hash, confirmed, required, fetches, u)
  }

  /** Handling the fetch at `now` keeps the loop going if it failed or too few blocks are linked. */
  lemma StillNotEnough(hash: string -> string, confirmed: Header, required: int, fetches: seq<Fetch>, used: nat, now: nat)
    requires used < now <= |fetches| && NotEnoughUpTo(hash, confirmed, required, fetches, used)
    requires forall k :: used <= k < now - 1 ==> fetches[k].FetchError?
    ensures NotEnoughUpTo(hash, confirmed, required, fetches, now - 1)
    ensures !EnoughAfter(hash, confirmed, required, fetches, now) ==> NotEnoughUpTo(hash, confirmed, required, fetches, now)
  {
    forall u | used < u < now
      ensures !EnoughAfter(hash, confirmed, required, fetches, u)
    {
      assert fetches[u - 1].FetchError?;
    }
  }

  lemma {:induction false} ErrorsChangeNothing(hash: string -> string, confirmed: Header, fetches: seq<Fetch>,
                                               used: nat, now: nat)
    requires used <= now <= |fetches| && forall k :: used <= k < now ==> fetches[k].FetchError?
    ensures Followed(hash, confirmed, fetches[..now]) == Followed(hash, confirmed, fetches[..used])
    decreases now
  {
    if used < now {
      ErrorsChangeNothing(hash, confirmed, fetches, used, now - 1);
      FollowedStep(hash, confirmed, fetches, now - 1);
    }
  }

  /** What a handled fetch does to the blocks, and when it is the last one. */
  lemma AfterFetch(hash: string -> string, confirmed: Header, required: int, fetches: seq<Fetch>, used: nat, now: nat,
                   blocks: seq<Header>)
    requires used < now <= |fetches| && NotEnoughUpTo(hash, confirmed, required, fetches, used)
    requires forall k :: used <= k < now - 1 ==> fetches[k].FetchError?
    requires blocks == Followed(hash, confirmed, fetches[..used])
    ensures var more := Linked(hash, blocks, fetches[now - 1]);
            && Followed(hash, confirmed, fetches[..now]) == more
            && NotEnoughUpTo(hash, confirmed, required, fetches, now - 1)
            && (if fetches[now - 1].Fetched? && |more| >= required then EnoughAfter(hash, confirmed, required, fetches, now)
                else NotEnoughUpTo(hash, confirmed, required, fetches, now))
  {
    StillNotEnough(hash, confirmed, required, fetches, used, now);
    ErrorsChangeNothing(hash, confirmed, fetches, used, now - 1);
    FollowedStep(hash, confirmed, fetches, now - 1);
  }

  /** A header is asked for, and once more if that fails. */
  method FetchTwice(fetches: seq<Fetch>, used: nat) returns (next: Fetch, now: nat)
    requires used < |fetches|
    ensures used < now <= |fetches|
    ensures next == fetches[now - 1] && forall k :: used <= k < now - 1 ==> fetches[k].FetchError?
  {
    next, now := fetches[used], used + 1;
    if next.FetchError? && now < |fetches| {
      next, now := fetches[now], now + 1;
    }
  }

  /** fetches is any finite run of results of getBlockInfoByRound; a failed one is tried once more before the
      loop starts over. `blocks` is the confirmed block and the ones that were linked to it. */
  method ValidateChain(hash: string -> string, confirmBlock: Header, required: int, fetches: seq<Fetch>)
      returns (r: ChainResult, blocks: seq<Header>, used: nat)
    ensures used <= |fetches| && blocks == Followed(hash, confirmBlock, fetches[..used])
    ensures r.Returned? ==> EnoughAfter(hash, confirmBlock, required, fetches, used)
    ensures r.Returned? ==> NotEnoughUpTo(hash, confirmBlock, required, fetches, used - 1)
    ensures r.Waiting? ==> used == |fetches| && NotEnoughUpTo(hash, confirmBlock, required, fetches, used)
    ensures r.Returned? ==> r.valid && |blocks| >= required
    ensures forall i :: 0 < i < |blocks| ==> blocks[i].hash == hash(HashedText(blocks[i - 1].hash, blocks[i]))
  {
    forall k | 0 <= k <= |fetches| {
      FollowedIsLinked(hash, confirmBlock, fetches[..k]);
    }
    hide HashedText;
    var confirmRound := confirmBlock.round;
    var currentBlockHash := confirmBlock.hash;
    var round := confirmRound + 1;
    blocks, used := [confirmBlock], 0;
    while used < |fetches|
      invariant 0 <= used <= |fetches|
      invariant blocks == Followed(hash, confirmBlock, fetches[..used])
      invariant currentBlockHash == blocks[|blocks| - 1].hash && round == confirmRound + |blocks|
      invariant NotEnoughUpTo(hash, confirmBlock, required, fetches, used)
      decreases |fetches| - used
    {
      ghost var before := used;
      var nextBlock;
      nextBlock, used := FetchTwice(fetches, used);
      AfterFetch(hash, confirmBlock, required, fetches, before, used, blocks);
      if nextBlock.FetchError? {
        continue;
      }
      if IsBlockExtends(hash, currentBlockHash, nextBlock.header) {
        currentBlockHash := nextBlock.header.hash;
        round := round + 1;
        blocks := blocks + [nextBlock.header];
      }
      if round > confirmRound && round - confirmRound < required {
        continue;
      }
      if round < confirmRound {
        return Returned(false), blocks, used;
      }
      return Returned(true), blocks, used;
    }
    return Waiting, blocks, used;
  }

  lemma {:induction false} BeforeEnough(hash: string -> string, confirmed: Header, required: int, fetches: seq<Fetch>, k: nat)
    requires k <= |fetches|
    requires NotEnoughUpTo(hash, confirmed, required, fetches, k)
    ensures var blocks := Followed(hash, confirmed, fetches[..k]); |blocks| < required || blocks == [confirmed]
  {
    if k > 0 {
      BeforeEnough(hash, confirmed, required, fetches, k - 1);
      FollowedStep(hash, confirmed, fetches, k - 1);
      assert !EnoughAfter(hash, confirmed, required, fetches, k);
    }
  }

  /** For a required length of two or more the chain has exactly that length when the loop returns, so
      required-1 replies were linked on. A required length of one (or less) is met by the confirmed block alone,
      but the loop returns only after the first header, which is linked on as well if it extends that block. */
  lemma LinkedOnReturn(hash: string -> string, confirmed: Header, required: int, fetches: seq<Fetch>, used: nat)
    requires used <= |fetches| && EnoughAfter(hash, confirmed, required, fetches, used)
    requires NotEnoughUpTo(hash, confirmed, required, fetches, used - 1)
    ensures var count := |Followed(hash, confirmed, fetches[..used])|;
            if required >= 2 then count == required
            else count == if IsBlockExtends(hash, confirmed.hash, fetches[used - 1].header) then 2 else 1
  {
    BeforeEnough(hash, confirmed, required, fetches, used - 1);
    FollowedStep(hash, confirmed, fetches, used - 1);
  }

  /** Hence "at most required-1 replies are linked on" fails for a required length of one. */
  method OneBlockTooMany(hash: string -> string, confirmBlock: Header, next: Header) returns (linked: nat)
    requires IsBlockExtends(hash, confirmBlock.hash, next)
    ensures linked == 1
  {
    var fetches := [Fetched(next)];
    FollowedStep(hash, confirmBlock, fetches, 0);
    assert fetches[..0] == [] && fetches[..1] == fetches;
    assert EnoughAfter(hash, confirmBlock, 1, fetches, 1);
    var r, blocks, used := ValidateChain(hash, confirmBlock, 1, fetches);
    linked := |blocks| - 1;
  }
}
