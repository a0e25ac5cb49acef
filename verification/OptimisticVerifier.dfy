/** The optimistic verifier in core/transaction/utils.go: one confirmation, then a chain of following blocks, each
    from a sharder that has not contributed before. Replies are arbitrary: `network` gives the k-th reply. */
module OptimisticVerification {
  import opened BlockHashing
  import opened Rands

  const RETRIES: nat := 30

  /** A failed request or an unusable response, or a block. */
  datatype BlockReply = NoBlock | GotBlock(block: Header)

  /** A reply to a confirmation query that parses; `pathVerifies` is the outcome of verifyMerklePath. */
  datatype ConfirmReply = NoConfirmation | Confirmation(txn: string, block: Header, pathVerifies: bool)

  datatype Query = Query(sharder: string, round: int, reply: BlockReply)

  datatype VerifyResult = Verified(txn: string) | WrongMinConfirmations | NoConfirmationFound | BlockchainStuck

  /** The reply extends a chain that ends in `tail`. */
  predicate Extends(hash: string -> string, tail: Header, reply: BlockReply) {
    && reply.GotBlock?
    && tail.hash == reply.block.previousHash && tail.round + 1 == reply.block.round
    && Validates(hash, reply.block)
  }

  /** The reply is a confirmation that the first handler accepts. */
  predicate Confirms(hash: string -> string, reply: ConfirmReply) {
    reply.Confirmation? && Validates(hash, reply.block) && reply.pathVerifies
  }

  /** Every block after the first was the reply of its source to a query for its round. */
  ghost predicate FromSources(chain: seq<Header>, sources: seq<string>, log: seq<Query>) {
    && |chain| == |sources| + 1
    && forall j :: 0 <= j < |sources| ==> Query(sources[j], chain[j + 1].round, GotBlock(chain[j + 1])) in log
  }

  /** This sharder was asked for the block after `tail` and did not give one. */
  ghost predicate Refused(hash: string -> string, tail: Header, sharder: string, log: seq<Query>) {
    exists q :: q in log && q.sharder == sharder && q.round == tail.round + 1 && !Extends(hash, tail, q.reply)
  }

  /** Every logged reply is what the network gave to that query. */
  ghost predicate Genuine(network: (nat, string, int) -> BlockReply, log: seq<Query>) {
    forall k :: 0 <= k < |log| ==> log[k].reply == network(k, log[k].sharder, log[k].round)
  }

  class OptimisticVerifier {
    const hash: string -> string
    const allSharders: seq<string>
    const chainLength: int
    const network: (nat, string, int) -> BlockReply
    var sharders: seq<string>
    var log: seq<Query>  // all block queries so far, with their replies

    constructor (hash: string -> string, allSharders: seq<string>, chainLength: int, network: (nat, string, int) -> BlockReply)
      ensures this.hash == hash && this.allSharders == allSharders && this.chainLength == chainLength
      ensures this.network == network && log == [] && Genuine(network, log)
    {
      this.hash, this.allSharders, this.chainLength, this.network := hash, allSharders, chainLength, network;
      sharders, log := [], [];
    }

    /** One request for the block of a round. */
    method Ask(sharder: string, round: int) returns (reply: BlockReply)
      requires Genuine(network, log)
      modifies this`log
      ensures Genuine(network, log)
      ensures reply == network(|old(log)|, sharder, round)
      ensures log == old(log) + [Query(sharder, round, reply)]
    {
      reply := network(|log|, sharder, round);
      log := log + [Query(sharder, round, reply)];
    }

    /** The inner loop: sharders are asked in a random order until one extends the chain. */
    method NextBlock(tail: Header, curRound: int) returns (next: Drawn, block: Header)
      requires curRound == tail.round && Genuine(network, log)
      modifies this`log
      ensures Genuine(network, log)
      ensures old(log) <= log && |log| <= |old(log)| + |sharders|
      ensures next.Item? ==>
        next.value < |sharders| && Extends(hash, tail, GotBlock(block)) &&
        Query(sharders[next.value], curRound + 1, GotBlock(block)) in log
      ensures next.ErrNoItem? ==> forall k :: 0 <= k < |sharders| ==> Refused(hash, tail, sharders[k], log)
    {
      var rand := new Rand(|sharders|);
      block := tail;
      while true
        invariant rand.Valid() && rand.Max == |sharders| && fresh(rand)
        invariant old(log) <= log && |log| == |old(log)| + |rand.Taken| && Genuine(network, log)
        invariant forall k :: k in rand.Taken ==> k < |sharders| && Refused(hash, tail, sharders[k], log)
        decreases |rand.items|
      {
        ghost var before, taken := log, rand.Taken;
        next := rand.Next();
        if next.ErrNoItem? {
          assert rand.Taken + rand.items == rand.Taken;
          return next, block;
        }
        var reply := Ask(sharders[next.value], curRound + 1);
        if Extends(hash, tail, reply) {
          return next, reply.block;
        }
        RefusalsKept(hash, tail, before, log);
        assert log[|log| - 1] == Query(sharders[next.value], curRound + 1, reply);
        assert Refused(hash, tail, sharders[next.value], log);
        assert forall k :: k in rand.Taken ==> k in taken || k == next.value;
      }
    }

    /** One turn of the outer loop; false if no sharder had the next block. */
    method Collect(chain: seq<Header>, sources: seq<string>, curRound: int, ghost first: Header)
        returns (found: bool, longer: seq<Header>, more: seq<string>)
      requires Grown(hash, first, chain, sources, log) && curRound == chain[|chain| - 1].round && Genuine(network, log)
      modifies this
      ensures Genuine(network, log)
      ensures old(log) <= log && Grown(hash, first, longer, more, log)
      ensures found ==> |longer| == |chain| + 1 && longer[|chain|].round == curRound + 1 && |sharders| < |old(sharders)|
      ensures multiset(more) + multiset(sharders) == multiset(sources) + multiset(old(sharders))
      ensures !found ==> longer == chain && more == sources && sharders == old(sharders)
      ensures !found ==> forall k :: 0 <= k < |sharders| ==> Refused(hash, chain[|chain| - 1], sharders[k], log)
    {
      hide IsChain, Validates, Refused, FromSources;
      ghost var before := log;
      var next, block := NextBlock(chain[|chain| - 1], curRound);
      SourcesKept(chain, sources, before, log);
      if next.ErrNoItem? {
        return false, chain, sources;
      }
      GrowOne(hash, first, chain, sources, log, sharders[next.value], block);
      more := Exclude(next.value, sources);
      return true, chain + [block], more;
    }

    /** The outer loop: blocks are collected until the chain is long enough or no sharder is left. */
    method CheckConfirmation(chain: seq<Header>) returns (stuck: bool, result: seq<Header>, sources: seq<string>)
      requires |chain| == 1 && IsChain(hash, chain) && Genuine(network, log)
      modifies this
      ensures Genuine(network, log)
      ensures Grown(hash, chain[0], result, sources, log)
      ensures multiset(old(sharders)) == multiset(sources) + multiset(sharders)
      ensures !stuck ==> |result| >= chainLength || sharders == []
      ensures stuck ==> |result| < chainLength && sharders != []
      ensures stuck ==> forall k :: 0 <= k < |sharders| ==> Refused(hash, result[|result| - 1], sharders[k], log)
      ensures old(log) <= log
    {
      GrownStart(hash, chain, log);
      hide IsChain, Refused, FromSources;
      result, sources := chain, [];
      var curRound := chain[0].round;
      while |result| < chainLength && |sharders| > 0
        invariant Grown(hash, chain[0], result, sources, log)
        invariant curRound == result[|result| - 1].round
        invariant multiset(old(sharders)) == multiset(sources) + multiset(sharders)
        invariant old(log) <= log && Genuine(network, log)
        decreases |sharders|
      {
        var found;
        found, result, sources := Collect(result, sources, curRound, chain[0]);
        if !found {
          return true, result, sources;
        }
        curRound := curRound + 1;
      }
      stuck := false;
    }

    /** A sharder that gave a block is not asked again. */
    method Exclude(next: nat, sources: seq<string>) returns (more: seq<string>)
      requires next < |sharders|
      modifies this`sharders
      ensures more == sources + [old(sharders)[next]] && |sharders| == |old(sharders)| - 1
      ensures multiset(more) + multiset(sharders) == multiset(sources) + multiset(old(sharders))
    {
      WithoutMultiset(sharders, next);
      more := sources + [sharders[next]];
      sharders := sharders[..next] + sharders[next + 1..];
    }

    /** Queries for the transaction go to the selected sharders, up to 30 times, until one confirmation is valid. */
    method GetConfirmation(selected: seq<string>, confirm: (nat, string) -> ConfirmReply)
        returns (confirming: string, txn: string, chain: seq<Header>)
      ensures chain == [] ==> forall k, s :: 0 <= k < RETRIES && s in selected ==> !Confirms(hash, confirm(k, s))
      ensures chain != [] ==> confirming in selected && IsConfirmed(hash, confirm, confirming, txn, chain)
      ensures forall k, s :: chain == [] && 0 <= k < 30 && s in selected && confirm(k, s).Confirmation? ==>
                !confirm(k, s).pathVerifies || !IsChain(hash, [confirm(k, s).block])
      ensures chain != [] ==> |chain| == 1 && IsChain(hash, chain)
      ensures chain != [] ==> exists k :: 0 <= k < 30 && confirm(k, confirming) == Confirmation(txn, chain[0], true)
    {
      hide IsChain, Validates;
      confirming, txn, chain := "", "", [];
      var retries := 0;
      while retries < RETRIES && chain == []
        invariant 0 <= retries <= RETRIES
        invariant chain == [] ==> forall k, s :: 0 <= k < retries && s in selected ==> !Confirms(hash, confirm(k, s))
        invariant chain != [] ==> confirming in selected && IsConfirmed(hash, confirm, confirming, txn, chain)
        decreases RETRIES - retries
      {
        var replies := Shuffle(selected);  // the order in which the replies arrive
        SameItems(selected, replies);
        confirming, txn, chain := First(replies, confirm, retries);
        retries := retries + 1;
      }
      if chain == [] {
        NeverAccepted(hash, selected, confirm);
      } else {
        ConfirmedIsChain(hash, confirm, confirming, txn, chain);
      }
    }

    /** resty's First: replies are handled until one is accepted. */
    method First(replies: seq<string>, confirm: (nat, string) -> ConfirmReply, attempt: nat)
        returns (confirming: string, txn: string, chain: seq<Header>)
      requires attempt < RETRIES
      ensures chain == [] ==> forall s :: s in replies ==> !Confirms(hash, confirm(attempt, s))
      ensures chain != [] ==> confirming in replies && IsConfirmed(hash, confirm, confirming, txn, chain)
    {
      var i := 0;
      while i < |replies|
        invariant 0 <= i <= |replies|
        invariant forall j :: 0 <= j < i ==> !Confirms(hash, confirm(attempt, replies[j]))
      {
        var reply := confirm(attempt, replies[i]);
        if Confirms(hash, reply) {
          return replies[i], reply.txn, [reply.block];
        }
        i := i + 1;
      }
      return "", "", [];
    }

    /** A sharder is removed at its first place in the list, if it is there. */
    method RemoveConfirming(toDelete: string)
      modifies this`sharders
      ensures Accounted(old(sharders), toDelete, [], sharders)
      ensures toDelete !in old(sharders) ==> sharders == old(sharders)
    {
      var i := 0;
      while i < |sharders|
        invariant 0 <= i <= |sharders| && toDelete !in sharders[..i] && sharders == old(sharders)
      {
        if sharders[i] == toDelete {
          WithoutMultiset(sharders, i);
          sharders := sharders[..i] + sharders[i + 1..];
          return;
        }
        i := i + 1;
      }
      assert sharders[..i] == sharders;
    }

    /** The confirmation comes from one of the shuffled sharders. */
    method Confirm(minNumConfirmation: nat, confirm: (nat, string) -> ConfirmReply)
        returns (confirming: string, txn: string, chain: seq<Header>)
      requires minNumConfirmation <= |allSharders|
      ensures chain == [] ==> Unconfirmed(hash, allSharders, minNumConfirmation, confirm)
      ensures chain != [] ==> confirming in allSharders && IsConfirmed(hash, confirm, confirming, txn, chain)
    {
      var shuffled := Shuffle(allSharders);
      SelectionKept(allSharders, shuffled, minNumConfirmation);
      confirming, txn, chain := GetConfirmation(shuffled[..minNumConfirmation], confirm);
      if chain == [] {
        assert Unselected(hash, shuffled[..minNumConfirmation], confirm);
      }
    }

    /** The rest of the chain comes from the sharders that are left when one has been removed. */
    method Complete(chain: seq<Header>, toDelete: string) returns (stuck: bool, result: seq<Header>, sources: seq<string>)
      requires |chain| == 1 && IsChain(hash, chain) && Genuine(network, log)
      modifies this
      ensures Genuine(network, log)
      ensures |result| >= 1 && result[..1] == chain && Grown(hash, result[0], result, sources, log)
      ensures Accounted(old(sharders), toDelete, sources, sharders)
      ensures if stuck then |result| < chainLength && sharders != [] else |result| >= chainLength || sharders == []
      ensures stuck ==> forall k :: 0 <= k < |sharders| ==> Refused(hash, result[|result| - 1], sharders[k], log)
    {
      hide Genuine, Refused, IsChain, FromSources;
      RemoveConfirming(toDelete);
      stuck, result, sources := CheckConfirmation(chain);
      GrownFrom(hash, chain[0], result, sources, log);
    }

    /** One valid confirmation starts the chain; the rest comes from the other sharders. `lookup` gives the sharder that
        is found under the URL of the confirming request, which is the confirming one if its URL is kept as written. */
    method VerifyTransactionOptimistic(minConfirmation: nat, confirm: (nat, string) -> ConfirmReply, lookup: string -> string)
        returns (r: VerifyResult, confirming: string, chain: seq<Header>, sources: seq<string>)
      requires Genuine(network, log)
      modifies this
      ensures Genuine(network, log)
      ensures r.WrongMinConfirmations? <==> MinSharders(minConfirmation, |allSharders|) > |allSharders|
      ensures r.WrongMinConfirmations? || r.NoConfirmationFound? ==> chain == []
      ensures r.NoConfirmationFound? ==> Unconfirmed(hash, allSharders, MinSharders(minConfirmation, |allSharders|), confirm)
      ensures r.NoConfirmationFound? ==> exists selected: seq<string> ::
        && |selected| == MinSharders(minConfirmation, |allSharders|) && multiset(selected) <= multiset(allSharders)
        && forall k, s :: 0 <= k < 30 && s in selected && confirm(k, s).Confirmation? ==>
             !confirm(k, s).pathVerifies || !IsChain(hash, [confirm(k, s).block])
      ensures r.Verified? || r.BlockchainStuck? ==> |chain| >= 1 && IsChain(hash, chain[..1]) && Grown(hash, chain[0], chain, sources, log)
      ensures r.Verified? ==> exists k :: 0 <= k < 30 && confirm(k, confirming) == Confirmation(r.txn, chain[0], true)
      ensures r.BlockchainStuck? ==>
        exists k, txn :: 0 <= k < 30 && confirm(k, confirming) == Confirmation(txn, chain[0], true)
      ensures r.Verified? ==> confirming in allSharders && IsConfirmed(hash, confirm, confirming, r.txn, chain[..1])
      ensures r.BlockchainStuck? ==>
        confirming in allSharders && exists txn :: IsConfirmed(hash, confirm, confirming, txn, chain[..1])
      ensures r.Verified? ==> |chain| >= chainLength || sharders == []
      ensures r.Verified? || r.BlockchainStuck? ==> Accounted(allSharders, lookup(confirming), sources, sharders)
      ensures r.BlockchainStuck? ==> |chain| < chainLength && sharders != []
      ensures r.BlockchainStuck? ==>
        forall k :: 0 <= k < |sharders| ==> Refused(hash, chain[|chain| - 1], sharders[k], log)
    {
      hide Grown, IsConfirmed, IsChain, Confirms, Refused, Genuine, Accounted, Unselected, Unconfirmed;
      confirming, chain, sources := "", [], [];
      sharders := allSharders;
      var minNumConfirmation := MinSharders(minConfirmation, |sharders|);
      if minNumConfirmation > |sharders| {
        return WrongMinConfirmations, confirming, chain, sources;
      }
      var txn: string;
      confirming, txn, chain := Confirm(minNumConfirmation, confirm);
      if chain == [] {
        SelectionWritten(hash, allSharders, minNumConfirmation, confirm);
        return NoConfirmationFound, confirming, chain, sources;
      }
      ConfirmedIsChain(hash, confirm, confirming, txn, chain);
      var stuck: bool;
      stuck, chain, sources := Complete(chain, lookup(confirming));
      r := if stuck then BlockchainStuck else Verified(txn);
    }
  }

  /** All sharders are the removed one, the sources and those that are left, each as often as it is listed. */
  ghost predicate Accounted(allSharders: seq<string>, removed: string, sources: seq<string>, left: seq<string>) {
    multiset(allSharders)
    == (if removed in allSharders then multiset{removed} else multiset{}) + multiset(sources) + multiset(left)
  }

  /** The chain grew from `first` by blocks of the sources. */
  ghost predicate Grown(hash: string -> string, first: Header, chain: seq<Header>, sources: seq<string>, log: seq<Query>) {
    |chain| >= 1 && chain[0] == first && IsChain(hash, chain) && FromSources(chain, sources, log)
  }

  lemma GrownStart(hash: string -> string, chain: seq<Header>, log: seq<Query>)
    requires |chain| == 1 && IsChain(hash, chain)
    ensures Grown(hash, chain[0], chain, [], log)
  {
  }

  lemma GrownFrom(hash: string -> string, first: Header, chain: seq<Header>, sources: seq<string>, log: seq<Query>)
    requires Grown(hash, first, chain, sources, log)
    ensures |chain| >= 1 && chain[0] == first && FromSources(chain, sources, log)
  {
  }

  /** An accepted confirmation is a reply whose path verifies and whose block carries its own hash. */
  lemma ConfirmedIsChain(hash: string -> string, confirm: (nat, string) -> ConfirmReply, confirming: string, txn: string,
                         chain: seq<Header>)
    requires IsConfirmed(hash, confirm, confirming, txn, chain)
    ensures |chain| == 1 && IsChain(hash, chain)
    ensures exists k :: 0 <= k < 30 && confirm(k, confirming) == Confirmation(txn, chain[0], true)
  {
    hide Validates;
    var k :| 0 <= k < RETRIES && Confirms(hash, confirm(k, confirming)) &&
             confirm(k, confirming).txn == txn && confirm(k, confirming).block == chain[0];
    assert confirm(k, confirming) == Confirmation(txn, chain[0], true);
  }

  /** Sharders that never confirmed gave no reply whose path verifies and whose block carries its own hash. */
  lemma NeverAccepted(hash: string -> string, selected: seq<string>, confirm: (nat, string) -> ConfirmReply)
    requires Unselected(hash, selected, confirm)
    ensures forall k, s :: 0 <= k < 30 && s in selected && confirm(k, s).Confirmation? ==>
              !confirm(k, s).pathVerifies || !IsChain(hash, [confirm(k, s).block])
  {
    hide Validates;
    forall k, s | 0 <= k < 30 && s in selected && confirm(k, s).Confirmation?
      ensures !confirm(k, s).pathVerifies || !IsChain(hash, [confirm(k, s).block])
    {
      assert !Confirms(hash, confirm(k, s));
      assert [confirm(k, s).block][0] == confirm(k, s).block;
    }
  }

  lemma SelectionWritten(hash: string -> string, sharders: seq<string>, count: nat, confirm: (nat, string) -> ConfirmReply)
    requires Unconfirmed(hash, sharders, count, confirm)
    ensures exists selected: seq<string> ::
      && |selected| == count && multiset(selected) <= multiset(sharders)
      && forall k, s :: 0 <= k < 30 && s in selected && confirm(k, s).Confirmation? ==>
           !confirm(k, s).pathVerifies || !IsChain(hash, [confirm(k, s).block])
  {
    hide IsChain, Unselected, Confirms;
    var selected: seq<string> :|
      |selected| == count && multiset(selected) <= multiset(sharders) && Unselected(hash, selected, confirm);
    NeverAccepted(hash, selected, confirm);
  }

  lemma GrowOne(hash: string -> string, first: Header, chain: seq<Header>, sources: seq<string>, log: seq<Query>,
                sharder: string, block: Header)
    requires Grown(hash, first, chain, sources, log)
    requires Extends(hash, chain[|chain| - 1], GotBlock(block))
    requires Query(sharder, block.round, GotBlock(block)) in log
    ensures Grown(hash, first, chain + [block], sources + [sharder], log)
  {
    ChainAppend(hash, chain, block);
    SourcesAppend(chain, sources, log, sharder, block);
  }

  lemma ChainAppend(hash: string -> string, chain: seq<Header>, block: Header)
    requires chain != [] && IsChain(hash, chain) && Extends(hash, chain[|chain| - 1], GotBlock(block))
    ensures IsChain(hash, chain + [block])
  {
    hide Validates;
    forall i | 0 <= i < |chain| + 1
      ensures Validates(hash, (chain + [block])[i])
    {
    }
  }

  lemma SourcesAppend(chain: seq<Header>, sources: seq<string>, log: seq<Query>, sharder: string, block: Header)
    requires FromSources(chain, sources, log) && Query(sharder, block.round, GotBlock(block)) in log
    ensures FromSources(chain + [block], sources + [sharder], log)
  {
    forall j | 0 <= j < |sources| + 1
      ensures Query((sources + [sharder])[j], (chain + [block])[j + 1].round, GotBlock((chain + [block])[j + 1])) in log
    {
      if j < |sources| {
        assert Query(sources[j], chain[j + 1].round, GotBlock(chain[j + 1])) in log;
      }
    }
  }

  /** None of these sharders ever confirmed. */
  ghost predicate Unselected(hash: string -> string, selected: seq<string>, confirm: (nat, string) -> ConfirmReply) {
    forall k, s :: 0 <= k < RETRIES && s in selected ==> !Confirms(hash, confirm(k, s))
  }

  /** Some selection of that many sharders never confirmed. */
  ghost predicate Unconfirmed(hash: string -> string, sharders: seq<string>, count: nat, confirm: (nat, string) -> ConfirmReply) {
    exists selected: seq<string> ::
      |selected| == count && multiset(selected) <= multiset(sharders) && Unselected(hash, selected, confirm)
  }

  lemma SelectionKept(sharders: seq<string>, shuffled: seq<string>, count: nat)
    requires multiset(sharders) == multiset(shuffled) && count <= |shuffled|
    ensures multiset(shuffled[..count]) <= multiset(sharders)
    ensures forall s :: s in shuffled[..count] ==> s in sharders
  {
    assert shuffled == shuffled[..count] + shuffled[count..];
    SameItems(sharders, shuffled);
  }

  /** Sharders that are asked for a confirmation: math.Ceil(minConfirmation * sharders / 100). */
  function MinSharders(minConfirmation: nat, sharders: nat): (k: nat)
    ensures 100 * k >= minConfirmation * sharders && (k > 0 ==> 100 * (k - 1) < minConfirmation * sharders)
  {
    (minConfirmation * sharders + 99) / 100
  }

  ghost predicate IsConfirmed(hash: string -> string, confirm: (nat, string) -> ConfirmReply, confirming: string,
                              txn: string, chain: seq<Header>)
  {
    && |chain| == 1
    && exists k :: 0 <= k < RETRIES && Confirms(hash, confirm(k, confirming)) &&
                   confirm(k, confirming).txn == txn && confirm(k, confirming).block == chain[0]
  }

  lemma RefusalsKept(hash: string -> string, tail: Header, before: seq<Query>, after: seq<Query>)
    requires before <= after
    ensures forall s :: Refused(hash, tail, s, before) ==> Refused(hash, tail, s, after)
  {
    forall s | Refused(hash, tail, s, before)
      ensures Refused(hash, tail, s, after)
    {
      var q :| q in before && q.sharder == s && q.round == tail.round + 1 && !Extends(hash, tail, q.reply);
      assert q in after;
    }
  }

  lemma SourcesKept(chain: seq<Header>, sources: seq<string>, before: seq<Query>, after: seq<Query>)
    requires before <= after && FromSources(chain, sources, before)
    ensures FromSources(chain, sources, after)
  {
  }

  lemma SameItems(s: seq<string>, t: seq<string>)
    requires multiset(s) == multiset(t)
    ensures forall x :: x in s <==> x in t
  {
    assert forall x :: x in s <==> x in multiset(s);
    assert forall x :: x in t <==> x in multiset(t);
  }

  /** Over different sharders, every block of the chain comes from a sharder of its own, none from the removed one. */
  lemma SourcesDiffer(allSharders: seq<string>, removed: string, sources: seq<string>, left: seq<string>)
    requires NoDup(allSharders) && Accounted(allSharders, removed, sources, left)
    ensures NoDup(sources + left) && removed !in sources + left
  {
    var gone := if removed in allSharders then [removed] else [];
    var all := gone + sources + left;
    assert multiset(all) == multiset(gone) + multiset(sources) + multiset(left);
    NoDupRearranged(allSharders, all);
    SameItems(allSharders, all);
    assert sources + left == all[|gone|..];
    NoDupTail(all, |gone|);
    assert gone != [] ==> all[0] == removed;
    assert forall s :: s in sources + left ==> s in all;
  }

  lemma NoDupTail(s: seq<string>, k: nat)
    requires NoDup(s) && k <= |s|
    ensures NoDup(s[k..]) && forall i :: 0 <= i < k ==> s[i] !in s[k..]
  {
    forall i, j | 0 <= i < k && 0 <= j < |s| - k
      ensures s[i] != s[k..][j]
    {
    }
  }

  /** A lookup that finds no sharder removes none: the confirming one is among the sources or may still be asked. */
  lemma NotRemoved(allSharders: seq<string>, confirming: string, removed: string, sources: seq<string>, left: seq<string>)
    requires Accounted(allSharders, removed, sources, left) && confirming in allSharders && removed !in allSharders
    ensures confirming in sources || confirming in left
  {
    assert multiset(allSharders) == multiset(sources + left);
    SameItems(allSharders, sources + left);
  }

  /** Over different sharders the confirming one is kept from supplying blocks exactly when its own URL is found. */
  lemma KeptOutIffFound(allSharders: seq<string>, confirming: string, removed: string, sources: seq<string>, left: seq<string>)
    requires NoDup(allSharders) && Accounted(allSharders, removed, sources, left) && confirming in allSharders
    ensures confirming !in sources + left <==> removed == confirming
  {
    SourcesDiffer(allSharders, removed, sources, left);
    if removed != confirming {
      var gone := if removed in allSharders then [removed] else [];
      assert multiset(allSharders) == multiset(gone + (sources + left));
      SameItems(allSharders, gone + (sources + left));
    }
  }

  /** A reply is taken for the next block exactly when it makes a chain of two with the block before. */
  lemma ExtendsIffChain(hash: string -> string, tail: Header, b: Header)
    requires Validates(hash, tail)
    ensures Extends(hash, tail, GotBlock(b)) <==> IsChain(hash, [tail, b])
  {
    hide Validates;
    var two := [tail, b];
    assert two[0] == tail && two[1] == b && two[1 - 1] == tail;
    if IsChain(hash, two) {
      assert Validates(hash, two[1]);
    }
  }

  // ----- a run in which every path fails

  /** The only sharder always answers with a valid block whose path does not verify: nothing is confirmed. */
  method FailedPathsConfirmNothing(hash: string -> string, b: Header) returns (r: VerifyResult, chain: seq<Header>)
    requires Validates(hash, b)
    ensures r.NoConfirmationFound? && chain == []
  {
    var v := new OptimisticVerifier(hash, ["s"], 1, (k, s, round) => NoBlock);
    var confirm := (k: nat, s: string) => Confirmation("t", b, false);
    var confirming, sources;
    r, confirming, chain, sources := v.VerifyTransactionOptimistic(100, confirm, s => s);
  }

  // ----- a run in which it supplies one

  /** A block that follows `tail` by one round and carries its own hash. */
  function Successor(hash: string -> string, tail: Header): Header {
    var b := tail.(previousHash := tail.hash, round := tail.round + 1);
    b.(hash := hash(Serialize(b)))
  }

  lemma SuccessorExtends(hash: string -> string, tail: Header)
    ensures Extends(hash, tail, GotBlock(Successor(hash, tail)))
  {
    var b := tail.(previousHash := tail.hash, round := tail.round + 1);
    assert Serialize(Successor(hash, tail)) == Serialize(b);
  }

  /** A sharder whose URL is not found: it confirms the transaction, and then the second block is its own as well. */
  method ConfirmsAndSupplies(hash: string -> string, first: Header) returns (confirming: string, sources: seq<string>)
    requires Validates(hash, first)
    ensures sources == [confirming]
  {
    var block, only := Successor(hash, first), ["HTTP://a"];
    SuccessorExtends(hash, first);
    var v := new OptimisticVerifier(hash, only, 2, (k, s, round) => GotBlock(block));
    var confirm := (k: nat, s: string) => Confirmation("", first, true);
    var r, chain;
    r, confirming, chain, sources := v.VerifyTransactionOptimistic(100, confirm, s => "");
    SomeoneConfirms(hash, only, first, confirm);
    NeverRefuses(hash, first, block, v.network, v.log);
    assert chain[0] == chain[..1][0] == first;
    assert r.Verified?;
    OneSource(confirming, sources, v.sharders);
  }

  lemma SomeoneConfirms(hash: string -> string, sharders: seq<string>, first: Header, confirm: (nat, string) -> ConfirmReply)
    requires |sharders| > 0 && Validates(hash, first) && forall k, s :: confirm(k, s) == Confirmation("", first, true)
    ensures forall count :: count > 0 ==> !Unconfirmed(hash, sharders, count, confirm)
  {
    forall selected: seq<string> | |selected| > 0
      ensures !Unselected(hash, selected, confirm)
    {
      assert Confirms(hash, confirm(0, selected[0]));
    }
  }

  lemma NeverRefuses(hash: string -> string, tail: Header, block: Header, network: (nat, string, int) -> BlockReply,
                     log: seq<Query>)
    requires Extends(hash, tail, GotBlock(block)) && Genuine(network, log)
    requires forall k, s, round :: network(k, s, round) == GotBlock(block)
    ensures forall s :: !Refused(hash, tail, s, log)
  {
  }

  lemma OneSource(confirming: string, sources: seq<string>, left: seq<string>)
    requires Accounted(["HTTP://a"], "", sources, left) && confirming in ["HTTP://a"]
    requires |sources| >= 1 || left == []
    ensures sources == [confirming]
  {
    assert |multiset(["HTTP://a"])| == |multiset(sources)| + |multiset(left)|;
    SameItems(["HTTP://a"], sources + left);
    assert multiset(sources + left) == multiset(sources) + multiset(left);
    assert sources[0] in sources + left;
  }
}
