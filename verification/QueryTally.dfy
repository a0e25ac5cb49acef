/** zcncore/transaction_query.go: the replies of all sharders are tallied one by one, in the order in which they
    arrive, and the running maximum decides. */
module QueryTallies {
  import opened BlockHashing
  import opened Consensus
  import opened Options

  const STATUS_OK: int := 200
  const SERVER_ERROR: int := 500

  // ----- GetInfo

  datatype QueryResult = QueryResult(content: string, statusCode: int)

  datatype InfoResult =
    | NoAvailableSharders
    | QueryNotFound
    | InvalidConsensus
    | StatusFailed(content: string)
    | Info(result: QueryResult)

  function Statuses(results: seq<QueryResult>): seq<int> {
    seq(|results|, i requires 0 <= i < |results| => results[i].statusCode)
  }

  /** How often each status came, whatever the order. */
  function StatusTally(results: seq<QueryResult>): multiset<int> {
    multiset(Statuses(results))
  }

  lemma StatusTallyStep(results: seq<QueryResult>, i: nat)
    requires i < |results|
    ensures StatusTally(results[..i + 1]) == Bump(StatusTally(results[..i]), results[i].statusCode)
  {
    assert Statuses(results[..i + 1]) == Statuses(results[..i]) + [results[i].statusCode];
  }

  /** The highest count of a status; statuses of 500 and above do not count. */
  ghost predicate IsMax(tally: multiset<int>, max: nat) {
    && (forall s :: s < SERVER_ERROR ==> tally[s] <= max)
    && (max > 0 ==> exists s :: s < SERVER_ERROR && tally[s] == max)
  }

  /** 200 came, and at least as often as every other counted status. */
  ghost predicate OkWins(tally: multiset<int>) {
    tally[STATUS_OK] > 0 && forall s :: s < SERVER_ERROR ==> tally[s] <= tally[STATUS_OK]
  }

  /** The response kept so far has a status that came most often, and it is 200 if 200 is one of those. */
  ghost predicate Keeps(tally: multiset<int>, max: nat, kept: QueryResult, results: seq<QueryResult>) {
    && IsMax(tally, max)
    && (max > 0 ==> kept in results && kept.statusCode < SERVER_ERROR && tally[kept.statusCode] == max)
    && (max > 0 && tally[STATUS_OK] == max ==> kept.statusCode == STATUS_OK)
  }

  /** Another status than 200 came most often. */
  ghost predicate FailsWith(results: seq<QueryResult>, status: int) {
    status != STATUS_OK && status < SERVER_ERROR && IsMax(StatusTally(results), StatusTally(results)[status])
  }

  function Bump<K>(tally: multiset<K>, key: K): multiset<K> {
    tally[key := tally[key] + 1]
  }

  ghost predicate Counted(counts: map<int, nat>, tally: multiset<int>) {
    forall s :: s < SERVER_ERROR ==> Count(counts, s) == tally[s]
  }

  lemma CountedStep(counts: map<int, nat>, tally: multiset<int>, status: int)
    requires Counted(counts, tally)
    ensures if status < SERVER_ERROR
            then Count(counts, status) == tally[status] && Counted(counts[status := tally[status] + 1], Bump(tally, status))
            else Counted(counts, Bump(tally, status))
  {
    assert forall s :: Bump(tally, status)[s] == tally[s] + if s == status then 1 else 0;
  }

  lemma KeepsStep(tally: multiset<int>, max: nat, kept: QueryResult, results: seq<QueryResult>, qr: QueryResult)
    requires Keeps(tally, max, kept, results) && qr in results
    ensures var more := Bump(tally, qr.statusCode);
            var votes := more[qr.statusCode];
            if qr.statusCode >= SERVER_ERROR then Keeps(more, max, kept, results)
            else if votes > max || (qr.statusCode == STATUS_OK && votes == max) then Keeps(more, votes, qr, results)
            else Keeps(more, max, kept, results)
  {
    var more := Bump(tally, qr.statusCode);
    assert forall s :: s != qr.statusCode ==> more[s] == tally[s];
    assert more[qr.statusCode] == tally[qr.statusCode] + 1;
    if max > 0 {
      var s :| s < SERVER_ERROR && tally[s] == max;
      assert s != qr.statusCode ==> more[s] == max;
    }
  }

  lemma KeepsMax(tally: multiset<int>, max: nat, kept: QueryResult, results: seq<QueryResult>)
    requires Keeps(tally, max, kept, results)
    ensures forall m: nat :: m > 0 && IsMax(tally, m) ==> m == max
    ensures max > 0 ==> (OkWins(tally) <==> kept.statusCode == STATUS_OK)
    ensures max == 0 <==> forall s :: s < SERVER_ERROR ==> tally[s] == 0
  {
  }

  lemma TallyStart(results: seq<QueryResult>, kept: QueryResult)
    ensures Counted(map[], StatusTally([])) && Keeps(StatusTally([]), 0, kept, results)
  {
  }

  lemma BumpOne(tally: multiset<int>, status: int)
    ensures Bump(tally, status)[status] == tally[status] + 1
  {
  }

  /** The response handler, run for every reply: the running maximum and a response that has it. */
  method TallyReplies(results: seq<QueryResult>) returns (maxConsensus: nat, consensusesResp: QueryResult)
    ensures Keeps(StatusTally(results), maxConsensus, consensusesResp, results)
  {
    var consensuses: map<int, nat> := map[];
    maxConsensus, consensusesResp := 0, QueryResult("", 0);
    var i := 0;
    TallyStart(results, consensusesResp);
    assert results[..0] == [];
    hide Keeps, StatusTally, Counted;
    while i < |results|
      invariant 0 <= i <= |results|
      invariant Counted(consensuses, StatusTally(results[..i]))
      invariant Keeps(StatusTally(results[..i]), maxConsensus, consensusesResp, results)
    {
      var qr := results[i];
      StatusTallyStep(results, i);
      CountedStep(consensuses, StatusTally(results[..i]), qr.statusCode);
      BumpOne(StatusTally(results[..i]), qr.statusCode);
      KeepsStep(StatusTally(results[..i]), maxConsensus, consensusesResp, results, qr);
      if qr.statusCode < SERVER_ERROR {
        var votes := Count(consensuses, qr.statusCode) + 1;
        consensuses := consensuses[qr.statusCode := votes];
        if votes > maxConsensus {
          maxConsensus := votes;
          consensusesResp := qr;
        }
        if qr.statusCode == STATUS_OK && votes == maxConsensus {
          maxConsensus := votes;
          consensusesResp := qr;
        }
      }
      i := i + 1;
    }
    assert results[..i] == results;
  }

  lemma OneMore(before: set<int>, after: set<int>, n: int, votes: bool)
    requires n !in before && before <= after <= before + {n} && (n in after <==> votes)
    ensures |after| == |before| + if votes then 1 else 0
  {
    if votes {
      assert after == before + {n};
    } else {
      assert after == before;
    }
  }

  ghost function WithStatus(results: seq<QueryResult>, status: int): set<int> {
    set i | 0 <= i < |results| && results[i].statusCode == status
  }

  lemma WithStatusStep(results: seq<QueryResult>, status: int)
    requires results != []
    ensures |WithStatus(results, status)|
         == |WithStatus(results[..|results| - 1], status)| + if results[|results| - 1].statusCode == status then 1 else 0
  {
    var n := |results| - 1;
    OneMore(WithStatus(results[..n], status), WithStatus(results, status), n, results[n].statusCode == status);
  }

  /** The tally counts replies: each is one vote for its status. */
  lemma {:induction false} StatusTallyIsCount(results: seq<QueryResult>, status: int)
    ensures StatusTally(results)[status] == |WithStatus(results, status)|
  {
    if results != [] {
      hide StatusTally, WithStatus;
      StatusTallyIsCount(results[..|results| - 1], status);
      StatusTallyStep(results, |results| - 1);
      WithStatusStep(results, status);
      assert results[..|results|] == results;
    }
  }

  lemma NoneBelow(results: seq<QueryResult>)
    ensures (forall s :: s < 500 ==> StatusTally(results)[s] == 0) <==> forall qr :: qr in results ==> qr.statusCode >= 500
  {
    var statuses := Statuses(results);
    forall qr | qr in results
      ensures qr.statusCode in StatusTally(results)
    {
      var i :| 0 <= i < |results| && results[i] == qr;
      assert statuses[i] == qr.statusCode;
    }
    forall s | s in StatusTally(results)
      ensures exists qr :: qr in results && qr.statusCode == s
    {
      assert s in statuses;
      var i :| 0 <= i < |statuses| && statuses[i] == s;
      assert results[i] in results && results[i].statusCode == s;
    }
  }

  method GetInfo(results: seq<QueryResult>, max: nat) returns (r: InfoResult)
    ensures r.NoAvailableSharders? <==> max == 0
    ensures r.Info? <==> max > 0 && OkWins(StatusTally(results)) && Quorum(StatusTally(results)[STATUS_OK], max)
    ensures r.Info? <==> max > 0 && StatusTally(results)[200] > 0 && 4 * StatusTally(results)[200] >= max &&
                         forall s :: s < 500 ==> StatusTally(results)[s] <= StatusTally(results)[200]
    ensures r.Info? ==> r.result in results && r.result.statusCode == 200
    ensures r.QueryNotFound? <==> max > 0 && forall qr :: qr in results ==> qr.statusCode >= 500
    ensures r.QueryNotFound? <==> max > 0 && forall s :: s < SERVER_ERROR ==> StatusTally(results)[s] == 0
    ensures r.InvalidConsensus? <==>
      max > 0 && exists m :: m > 0 && IsMax(StatusTally(results), m) && !Quorum(m, max)
    ensures r.StatusFailed? ==> exists kept :: kept in results && kept.content == r.content && FailsWith(results, kept.statusCode)
  {
    if max == 0 {
      return NoAvailableSharders;
    }
    NoneBelow(results);
    QuorumIsQuarter(StatusTally(results)[STATUS_OK], max);
    var maxConsensus, consensusesResp := TallyReplies(results);
    KeepsMax(StatusTally(results), maxConsensus, consensusesResp, results);
    if maxConsensus == 0 {
      return QueryNotFound;
    }
    if maxConsensus * 100 / max < CONSENSUS_THRESH {
      return InvalidConsensus;
    }
    if consensusesResp.statusCode != STATUS_OK {
      assert FailsWith(results, consensusesResp.statusCode);
      return StatusFailed(consensusesResp.content);
    }
    return Info(consensusesResp);
  }

  /** Replies in another order give the same tally, hence the same kind of result. */
  lemma {:induction false} TallyInAnyOrder(results: seq<QueryResult>, others: seq<QueryResult>)
    requires multiset(results) == multiset(others)
    ensures StatusTally(results) == StatusTally(others)
    decreases |results|
  {
    if results == [] {
      assert |multiset(others)| == 0;
    } else {
      var last := results[|results| - 1];
      var front := results[..|results| - 1];
      assert results == front + [last];
      assert last in multiset(others);
      var k :| 0 <= k < |others| && others[k] == last;
      assert others == others[..k] + [last] + others[k + 1..];
      assert multiset(others[..k] + others[k + 1..]) == multiset(others) - multiset{last};
      TallyInAnyOrder(front, others[..k] + others[k + 1..]);
      StatusTallySplit(results, |results| - 1);
      StatusTallySplit(others, k);
      assert results[..|results| - 1] + results[|results|..] == front;
    }
  }

  lemma StatusTallySplit(results: seq<QueryResult>, k: nat)
    requires k < |results|
    ensures StatusTally(results) == StatusTally(results[..k] + results[k + 1..]) + multiset{results[k].statusCode}
  {
    var before, after := Statuses(results[..k]), Statuses(results[k + 1..]);
    assert Statuses(results) == before + [results[k].statusCode] + after;
    assert Statuses(results[..k] + results[k + 1..]) == before + after;
  }

  // ----- getConsensusConfirmation

  /** A handled reply: not usable; a confirmed block header; or none, with the latest finalized block if there is one. */
  datatype Reply = Unusable | ConfirmedIn(header: Header) | NotConfirmed(lfb: Option<Header>)

  datatype Outcome = TransactionNotFound | NoConsensus | Consensus

  function ConfirmedHashes(replies: seq<Reply>): (hashes: multiset<string>) {
    if replies == [] then multiset{}
    else
      var last := replies[|replies| - 1];
      ConfirmedHashes(replies[..|replies| - 1]) + if last.ConfirmedIn? then multiset{last.header.hash} else multiset{}
  }

  function LfbHashes(replies: seq<Reply>): multiset<string> {
    if replies == [] then multiset{}
    else
      var last := replies[|replies| - 1];
      LfbHashes(replies[..|replies| - 1]) +
      if last.NotConfirmed? && last.lfb.Some? then multiset{last.lfb.value.hash} else multiset{}
  }

  ghost function ConfirmedWith(replies: seq<Reply>, h: string): set<int> {
    set i | 0 <= i < |replies| && replies[i].ConfirmedIn? && replies[i].header.hash == h
  }

  lemma ConfirmedWithStep(replies: seq<Reply>, h: string)
    requires replies != []
    ensures var last := replies[|replies| - 1];
            |ConfirmedWith(replies, h)| ==
            |ConfirmedWith(replies[..|replies| - 1], h)| + if last.ConfirmedIn? && last.header.hash == h then 1 else 0
  {
    var n := |replies| - 1;
    OneMore(ConfirmedWith(replies[..n], h), ConfirmedWith(replies, h), n,
            replies[n].ConfirmedIn? && replies[n].header.hash == h);
  }

  /** The tally of confirmations counts replies that confirm with this block hash. */
  lemma {:induction false} ConfirmedHashesIsCount(replies: seq<Reply>, h: string)
    ensures ConfirmedHashes(replies)[h] == |ConfirmedWith(replies, h)|
  {
    if replies != [] {
      hide ConfirmedHashes, ConfirmedWith, LfbHashes;
      var front, last := replies[..|replies| - 1], replies[|replies| - 1];
      ConfirmedHashesIsCount(front, h);
      ConfirmedWithStep(replies, h);
      AppendReply(front, last);
      assert replies == front + [last];
    }
  }

  ghost function LfbWith(replies: seq<Reply>, h: string): set<int> {
    set i | 0 <= i < |replies| && replies[i].NotConfirmed? && replies[i].lfb.Some? && replies[i].lfb.value.hash == h
  }

  lemma LfbWithStep(replies: seq<Reply>, h: string)
    requires replies != []
    ensures var last := replies[|replies| - 1];
            |LfbWith(replies, h)| ==
            |LfbWith(replies[..|replies| - 1], h)| +
            if last.NotConfirmed? && last.lfb.Some? && last.lfb.value.hash == h then 1 else 0
  {
    var n := |replies| - 1;
    OneMore(LfbWith(replies[..n], h), LfbWith(replies, h), n,
            replies[n].NotConfirmed? && replies[n].lfb.Some? && replies[n].lfb.value.hash == h);
  }

  /** The other tally counts replies that do not confirm but have this latest finalized block. */
  lemma {:induction false} LfbHashesIsCount(replies: seq<Reply>, h: string)
    ensures LfbHashes(replies)[h] == |LfbWith(replies, h)|
  {
    if replies != [] {
      hide ConfirmedHashes, LfbWith, LfbHashes;
      var front, last := replies[..|replies| - 1], replies[|replies| - 1];
      LfbHashesIsCount(front, h);
      LfbWithStep(replies, h);
      AppendReply(front, last);
      assert replies == front + [last];
    }
  }

  ghost predicate MaxTally(tally: multiset<string>, max: nat) {
    (forall h :: tally[h] <= max) && (max > 0 ==> exists h :: tally[h] == max)
  }

  lemma MaxTallyStep(tally: multiset<string>, max: nat, h: string)
    requires MaxTally(tally, max)
    ensures MaxTally(tally + multiset{h}, if tally[h] + 1 > max then tally[h] + 1 else max)
  {
    var more := tally + multiset{h};
    assert more[h] == tally[h] + 1;
    if max > 0 {
      var g :| tally[g] == max;
      assert g != h ==> more[g] == max;
    }
  }

  lemma NoTally(tally: multiset<string>, max: nat)
    requires MaxTally(tally, max)
    ensures max == 0 <==> tally == multiset{}
  {
  }

  /** The tally of the latest finalized blocks, its maximum, and a header that has it. */
  ghost predicate LfbCounted(counts: map<string, nat>, max: nat, kept: Option<Header>, handled: seq<Reply>) {
    && (forall h :: Count(counts, h) == LfbHashes(handled)[h])
    && MaxTally(LfbHashes(handled), max)
    && (kept.Some? <==> max > 0)
    && (kept.Some? ==> NotConfirmed(kept) in handled && LfbHashes(handled)[kept.value.hash] == max)
  }

  lemma LfbUncounted(counts: map<string, nat>, max: nat, kept: Option<Header>, handled: seq<Reply>, reply: Reply)
    requires LfbCounted(counts, max, kept, handled) && (reply.NotConfirmed? ==> reply.lfb.None?)
    ensures LfbCounted(counts, max, kept, handled + [reply])
  {
    AppendReply(handled, reply);
    assert LfbHashes(handled + [reply]) == LfbHashes(handled);
  }

  lemma LfbStep(counts: map<string, nat>, max: nat, kept: Option<Header>, handled: seq<Reply>, block: Header)
    requires LfbCounted(counts, max, kept, handled)
    ensures var votes := Count(counts, block.hash) + 1;
            LfbCounted(counts[block.hash := votes], if votes > max then votes else max,
                       if votes > max then Some(block) else kept, handled + [NotConfirmed(Some(block))])
  {
    hide LfbHashes;
    var tally := LfbHashes(handled);
    AppendReply(handled, NotConfirmed(Some(block)));
    MaxTallyStep(tally, max, block.hash);
    assert forall h :: (tally + multiset{block.hash})[h] == tally[h] + if h == block.hash then 1 else 0;
    assert NotConfirmed(Some(block)) in handled + [NotConfirmed(Some(block))];
  }

  /** The variables that the response handler of getConsensusConfirmation updates. */
  class ConfirmationTally {
    const numSharders: int
    var maxConfirmation: nat
    var txnConfirmations: map<string, nat>
    var confirmationBlockHeader: Option<Header>
    var maxLfbBlockHeader: nat
    var lfbBlockHeaders: map<string, nat>
    var lfbBlockHeader: Option<Header>
    ghost var Handled: seq<Reply>

    ghost predicate ValidConfirmations()
      reads this
    {
      var tally := ConfirmedHashes(Handled);
      && (forall h :: Count(txnConfirmations, h) == tally[h])
      && MaxTally(tally, maxConfirmation)
      && (confirmationBlockHeader.Some? <==> maxConfirmation > 0 && maxConfirmation >= numSharders)
      && (confirmationBlockHeader.Some? ==>
            ConfirmedIn(confirmationBlockHeader.value) in Handled && tally[confirmationBlockHeader.value.hash] == maxConfirmation)
    }

    ghost predicate ValidLfb()
      reads this
    {
      LfbCounted(lfbBlockHeaders, maxLfbBlockHeader, lfbBlockHeader, Handled)
    }

    constructor (numSharders: int)
      ensures ValidConfirmations() && ValidLfb() && Handled == [] && this.numSharders == numSharders
    {
      this.numSharders := numSharders;
      maxConfirmation, txnConfirmations, confirmationBlockHeader := 0, map[], None;
      maxLfbBlockHeader, lfbBlockHeaders, lfbBlockHeader := 0, map[], None;
      Handled := [];
    }

    /** A reply that confirms the transaction; true once enough sharders agree and the rest may be cancelled. */
    method HandleConfirmed(block: Header) returns (enough: bool)
      requires ValidConfirmations()
      modifies this`maxConfirmation, this`txnConfirmations, this`confirmationBlockHeader, this`Handled
      ensures ValidConfirmations() && Handled == old(Handled) + [ConfirmedIn(block)]
      ensures enough ==> confirmationBlockHeader == Some(block)
    {
      hide ConfirmedHashes, LfbHashes, LfbCounted;
      ghost var tally := ConfirmedHashes(Handled);
      MaxTallyStep(tally, maxConfirmation, block.hash);
      AppendReply(Handled, ConfirmedIn(block));
      txnConfirmations := txnConfirmations[block.hash := Count(txnConfirmations, block.hash) + 1];
      Handled := Handled + [ConfirmedIn(block)];
      enough := false;
      if txnConfirmations[block.hash] > maxConfirmation {
        maxConfirmation := txnConfirmations[block.hash];
        if maxConfirmation >= numSharders {
          confirmationBlockHeader := Some(block);
          enough := true;
        }
      }
    }

    /** A reply without a confirmation, with or without a latest finalized block. */
    method HandleNotConfirmed(lfb: Option<Header>)
      requires ValidLfb()
      modifies this`maxLfbBlockHeader, this`lfbBlockHeaders, this`lfbBlockHeader, this`Handled
      ensures ValidLfb() && Handled == old(Handled) + [NotConfirmed(lfb)]
    {
      ghost var before := Handled;
      if lfb.None? {
        LfbUncounted(lfbBlockHeaders, maxLfbBlockHeader, lfbBlockHeader, Handled, NotConfirmed(lfb));
      } else {
        var h := lfb.value.hash;
        var votes := Count(lfbBlockHeaders, h) + 1;
        LfbStep(lfbBlockHeaders, maxLfbBlockHeader, lfbBlockHeader, Handled, lfb.value);
        lfbBlockHeaders := lfbBlockHeaders[h := votes];
        if votes > maxLfbBlockHeader {
          maxLfbBlockHeader := votes;
          lfbBlockHeader := lfb;
        }
        assert LfbCounted(lfbBlockHeaders, maxLfbBlockHeader, lfbBlockHeader, before + [NotConfirmed(lfb)]);
      }
      Handled := before + [NotConfirmed(lfb)];
    }

    method Handle(reply: Reply)
      requires ValidConfirmations() && ValidLfb()
      modifies this
      ensures ValidConfirmations() && ValidLfb() && Handled == old(Handled) + [reply]
    {
      AppendReply(Handled, reply);
      if !reply.NotConfirmed? {
        LfbUncounted(lfbBlockHeaders, maxLfbBlockHeader, lfbBlockHeader, Handled, reply);
      }
      match reply {
        case Unusable => Handled := Handled + [reply];
        case ConfirmedIn(block) => var enough := HandleConfirmed(block);
        case NotConfirmed(lfb) => HandleNotConfirmed(lfb);
      }
    }
  }

  lemma AppendReply(replies: seq<Reply>, reply: Reply)
    ensures ConfirmedHashes(replies + [reply])
            == ConfirmedHashes(replies) + if reply.ConfirmedIn? then multiset{reply.header.hash} else multiset{}
    ensures LfbHashes(replies + [reply])
            == LfbHashes(replies) + if reply.NotConfirmed? && reply.lfb.Some? then multiset{reply.lfb.value.hash} else multiset{}
    ensures forall r :: r in replies ==> r in replies + [reply]
  {
    assert (replies + [reply])[..|replies|] == replies;
  }

  /** `replies` are those that are handled: once the handler has reported a consensus the rest may be cancelled. */
  method GetConsensusConfirmation(replies: seq<Reply>, numSharders: int)
      returns (r: Outcome, header: Option<Header>, lfb: Option<Header>)
    ensures r.TransactionNotFound? <==> ConfirmedHashes(replies) == multiset{}
    ensures r.Consensus? <==> exists h :: h in ConfirmedHashes(replies) && ConfirmedHashes(replies)[h] >= numSharders
    ensures r.Consensus? ==> header.Some? && ConfirmedIn(header.value) in replies
    ensures r.Consensus? ==> MaxTally(ConfirmedHashes(replies), ConfirmedHashes(replies)[header.value.hash])
    ensures r.Consensus? ==> ConfirmedHashes(replies)[header.value.hash] >= numSharders
    ensures !r.Consensus? ==> header.None?
    ensures lfb.Some? <==> LfbHashes(replies) != multiset{}
    ensures lfb.Some? ==> NotConfirmed(lfb) in replies && MaxTally(LfbHashes(replies), LfbHashes(replies)[lfb.value.hash])
  {
    var t := new ConfirmationTally(numSharders);
    var i := 0;
    while i < |replies|
      invariant 0 <= i <= |replies| && fresh(t) && t.numSharders == numSharders
      invariant t.ValidConfirmations() && t.ValidLfb() && t.Handled == replies[..i]
    {
      t.Handle(replies[i]);
      i := i + 1;
    }
    assert replies[..i] == replies;
    NoTally(ConfirmedHashes(replies), t.maxConfirmation);
    NoTally(LfbHashes(replies), t.maxLfbBlockHeader);
    if t.maxConfirmation == 0 {
      return TransactionNotFound, None, t.lfbBlockHeader;
    }
    if t.maxConfirmation < numSharders {
      return NoConsensus, None, t.lfbBlockHeader;
    }
    return Consensus, t.confirmationBlockHeader, t.lfbBlockHeader;
  }
}
