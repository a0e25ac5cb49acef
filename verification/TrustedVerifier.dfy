/** VerifyTransactionTrusted in core/transaction/utils.go: sharders are drawn without replacement until enough of
    them know the transaction. answers[i] is what sharder i would reply, since each is asked at most once. */
module TrustedVerification {
  import opened Rands
  import opened OptimisticVerification

  /** A failed or unparsable reply, a transaction, only a block hash, or neither of the two. */
  datatype Reply = Failed | Txn(txn: string, signed: bool) | BlockHashOnly | Neither

  datatype TrustedResult =
    | NoAvailableSharder
    | Confirmed(txn: string)
    | NoTxnDetail
    | TooLessConfirmation(numSuccess: nat)

  predicate Success(reply: Reply) {
    reply.Txn? || reply.BlockHashOnly?
  }

  /** The sharders among `asked` that know the transaction. */
  ghost function Successes(answers: seq<Reply>, asked: set<nat>): set<nat> {
    set i | i in asked && i < |answers| && Success(answers[i])
  }

  ghost function Everyone(answers: seq<Reply>): set<nat> {
    Below(|answers|)
  }

  ghost function Below(n: nat): (s: set<nat>)
    ensures forall i: nat :: i in s <==> i < n
  {
    if n == 0 then {} else Below(n - 1) + {n - 1}
  }

  ghost function SetOf(s: seq<nat>): set<nat> {
    set i | i in s
  }

  /** The counters after these sharders have been handled. */
  ghost predicate Tallied(answers: seq<Reply>, handled: set<nat>, numSuccess: nat, signed: bool, txn: string) {
    && numSuccess == |Successes(answers, handled)|
    && (signed <==> exists i :: i in handled && i < |answers| && answers[i].Txn? && answers[i].signed)
    && (signed ==> exists i :: i in handled && i < |answers| && answers[i] == Txn(txn, true))
  }

  /** The ones that know it sent a transaction or at least a block hash. */
  lemma SuccessesWritten(answers: seq<Reply>, asked: set<nat>)
    ensures Successes(answers, asked)
         == set i | i in asked && i < |answers| && (answers[i].Txn? || answers[i].BlockHashOnly?)
  {
  }

  class Verifier {
    const answers: seq<Reply>
    var numSuccess: nat
    var hasTxn: bool
    var retTxn: string
    ghost var Handled: set<nat>

    ghost predicate Valid()
      reads this
    {
      Handled <= Everyone(answers) && Tallied(answers, Handled, numSuccess, hasTxn, retTxn)
    }

    constructor (answers: seq<Reply>)
      ensures Valid() && this.answers == answers && Handled == {}
    {
      this.answers := answers;
      numSuccess, hasTxn, retTxn, Handled := 0, false, "", {};
      new;
      assert Successes(answers, {}) == {};
    }

    /** The response handler. */
    method Handle(i: nat)
      requires Valid() && i < |answers| && i !in Handled
      modifies this
      ensures Valid() && Handled == old(Handled) + {i}
      ensures numSuccess == old(numSuccess) + if answers[i].Txn? || answers[i].BlockHashOnly? then 1 else 0
      ensures hasTxn == (old(hasTxn) || (answers[i].Txn? && answers[i].signed))
      ensures retTxn == if answers[i].Txn? && answers[i].signed then answers[i].txn else old(retTxn)
      ensures numSuccess
           == |set j | j in Handled && j < |answers| && (answers[j].Txn? || answers[j].BlockHashOnly?)|
    {
      var reply := answers[i];
      if reply.Txn? {
        if reply.signed {
          hasTxn, retTxn := true, reply.txn;
        }
        numSuccess := numSuccess + 1;
      } else if reply.BlockHashOnly? {
        numSuccess := numSuccess + 1;
      }
      assert Successes(answers, Handled + {i}) == Successes(answers, Handled) + (if Success(reply) then {i} else {});
      Handled := Handled + {i};
      SuccessesWritten(answers, Handled);
    }

    /** All requests of one round are waited for; their replies arrive in any order. */
    method HandleAll(batch: set<nat>)
      requires Valid() && batch <= Everyone(answers) && batch !! Handled
      modifies this
      ensures Valid() && Handled == old(Handled) + batch
    {
      var pending := batch;
      while pending != {}
        invariant pending <= batch && Valid() && Handled == old(Handled) + (batch - pending)
        decreases pending
      {
        var i :| i in pending;
        Handle(i);
        pending := pending - {i};
      }
    }
  }

  /** minNumConfirmation+1 sharders to start with, or all of them if there are fewer. */
  method SelectFirst(rand: Rand, minNumConfirmation: nat) returns (selected: set<nat>)
    requires rand.Valid() && rand.Taken == []
    modifies rand
    ensures rand.Valid() && selected == SetOf(rand.Taken)
    ensures |rand.Taken| <= minNumConfirmation + 1 && (rand.items == [] || |rand.Taken| == minNumConfirmation + 1)
  {
    selected := {};
    var i := 0;
    while i <= minNumConfirmation
      invariant 0 <= i <= minNumConfirmation + 1
      invariant rand.Valid() && |rand.Taken| == i && selected == SetOf(rand.Taken)
    {
      var n := rand.Next();
      if n.ErrNoItem? {
        break;
      }
      selected := selected + {n.value};
      i := i + 1;
    }
  }

  lemma TakenIsEveryone(rand: Rand, answers: seq<Reply>)
    requires rand.Valid() && rand.Max == |answers|
    ensures SetOf(rand.Taken) <= Everyone(answers)
    ensures rand.items == [] ==> SetOf(rand.Taken) == Everyone(answers)
  {
    forall v | v in rand.Taken
      ensures v < |answers|
    {
      assert v in rand.Taken + rand.items;
    }
    if rand.items == [] {
      assert rand.Taken + rand.items == rand.Taken;
    }
  }

  /** Everyone asked after the first minNumConfirmation+1 was asked while there were too few confirmations. */
  ghost predicate AskedInTurn(answers: seq<Reply>, minNumConfirmation: nat, queried: seq<nat>) {
    forall k :: minNumConfirmation < k < |queried| ==> |Successes(answers, SetOf(queried[..k]))| < minNumConfirmation
  }

  lemma FirstInTurn(answers: seq<Reply>, minNumConfirmation: nat, queried: seq<nat>)
    requires |queried| <= minNumConfirmation + 1
    ensures AskedInTurn(answers, minNumConfirmation, queried)
  {
  }

  lemma NoneAsked(answers: seq<Reply>, minConfirmation: nat)
    ensures NoDup<nat>([]) && SetOf([]) <= Everyone(answers)
    ensures AskedInTurn(answers, MinSharders(minConfirmation, |answers|), [])
  {
  }

  lemma CountedSuccesses(answers: seq<Reply>, handled: set<nat>, numSuccess: nat, signed: bool, txn: string)
    requires Tallied(answers, handled, numSuccess, signed, txn)
    ensures numSuccess == |Successes(answers, handled)|
  {
  }

  lemma AskOneMore(answers: seq<Reply>, minNumConfirmation: nat, queried: seq<nat>, n: nat)
    requires AskedInTurn(answers, minNumConfirmation, queried)
    requires |Successes(answers, SetOf(queried))| < minNumConfirmation
    ensures AskedInTurn(answers, minNumConfirmation, queried + [n])
    ensures SetOf(queried + [n]) == SetOf(queried) + {n} && (n in SetOf(queried) <==> n in queried)
  {
    hide Successes;
    var more := queried + [n];
    forall k | minNumConfirmation < k < |more|
      ensures |Successes(answers, SetOf(more[..k]))| < minNumConfirmation
    {
      assert more[..k] == if k == |queried| then queried else queried[..k];
    }
  }

  lemma TakenDiffer(taken: seq<nat>, items: seq<nat>)
    requires NoDup(taken + items)
    ensures NoDup(taken)
  {
    assert forall i :: 0 <= i < |taken| ==> taken[i] == (taken + items)[i];
  }

  /** What the counters say of the sharders asked in this order. */
  lemma CountsWritten(answers: seq<Reply>, queried: seq<nat>, numSuccess: nat, signed: bool, txn: string)
    requires Tallied(answers, SetOf(queried), numSuccess, signed, txn) && SetOf(queried) <= Everyone(answers)
    ensures numSuccess == |set i | i in queried && i < |answers| && (answers[i].Txn? || answers[i].BlockHashOnly?)|
    ensures numSuccess == |Successes(answers, SetOf(queried))| <= |Successes(answers, Everyone(answers))|
    ensures signed ==> exists i :: i in queried && i < |answers| && answers[i] == Txn(txn, true)
    ensures !signed ==> forall i :: i in queried && i < |answers| ==> !(answers[i].Txn? && answers[i].signed)
  {
    SuccessesWritten(answers, SetOf(queried));
    FewerSuccesses(answers, SetOf(queried), Everyone(answers));
    hide Successes;
    assert (set i | i in SetOf(queried) && i < |answers| && (answers[i].Txn? || answers[i].BlockHashOnly?))
        == set i | i in queried && i < |answers| && (answers[i].Txn? || answers[i].BlockHashOnly?);
    assert forall i :: i in SetOf(queried) <==> i in queried;
  }

  method VerifyTransactionTrusted(answers: seq<Reply>, minConfirmation: nat) returns (r: TrustedResult, ghost queried: seq<nat>)
    ensures NoDup(queried) && SetOf(queried) <= Everyone(answers)
    ensures r.NoAvailableSharder? <==> answers == []
    // enough different sharders, and a signed transaction from one of them
    ensures r.Confirmed? || r.NoTxnDetail? ==>
      |Successes(answers, SetOf(queried))| >= AtLeastOne(MinSharders(minConfirmation, |answers|))
    ensures r.Confirmed? ==> exists i :: i in queried && i < |answers| && answers[i] == Txn(r.txn, true)
    ensures r.NoTxnDetail? ==> forall i :: i in queried && i < |answers| ==> !(answers[i].Txn? && answers[i].signed)
    ensures r.TooLessConfirmation? ==>
      r.numSuccess == |Successes(answers, SetOf(queried))| < AtLeastOne(MinSharders(minConfirmation, |answers|))
    // the same with the replies that count written out
    ensures r.Confirmed? || r.NoTxnDetail? ==>
      |set i | i in queried && i < |answers| && (answers[i].Txn? || answers[i].BlockHashOnly?)| >= 1
    ensures r.Confirmed? || r.NoTxnDetail? ==>
      |set i | i in queried && i < |answers| && (answers[i].Txn? || answers[i].BlockHashOnly?)|
      >= MinSharders(minConfirmation, |answers|)
    ensures r.TooLessConfirmation? ==>
      r.numSuccess == |set i | i in queried && i < |answers| && (answers[i].Txn? || answers[i].BlockHashOnly?)|
    ensures r.TooLessConfirmation? ==> r.numSuccess == 0 || r.numSuccess < MinSharders(minConfirmation, |answers|)
    // one sharder more than needed is asked first, and another one only while there are too few confirmations
    ensures |queried| == |answers| || |queried| > MinSharders(minConfirmation, |answers|)
    ensures AskedInTurn(answers, MinSharders(minConfirmation, |answers|), queried)
    // with a positive minimum the number of confirmations does not depend on the draws
    ensures answers != [] && MinSharders(minConfirmation, |answers|) > 0 ==>
      (r.TooLessConfirmation? <==> |Successes(answers, Everyone(answers))| < MinSharders(minConfirmation, |answers|))
  {
    hide Successes, AskedInTurn, NoDup, SetOf, Everyone, MinSharders, Tallied;
    queried := [];
    var numSharders := |answers|;
    if numSharders == 0 {
      NoneAsked(answers, minConfirmation);
      return NoAvailableSharder, queried;
    }
    var minNumConfirmation := MinSharders(minConfirmation, numSharders);
    var rand := new Rand(numSharders);
    var v := new Verifier(answers);
    var batch := SelectFirst(rand, minNumConfirmation);
    FirstInTurn(answers, minNumConfirmation, rand.Taken);
    while true
      invariant rand.Valid() && rand.Max == numSharders && fresh(rand)
      invariant v.Valid() && v.answers == answers && fresh(v)
      invariant v.Handled + batch == SetOf(rand.Taken) && v.Handled !! batch
      invariant rand.items == [] || |rand.Taken| > minNumConfirmation
      invariant AskedInTurn(answers, minNumConfirmation, rand.Taken)
      decreases |rand.items|
    {
      TakenIsEveryone(rand, answers);
      v.HandleAll(batch);
      queried := rand.Taken;
      if v.numSuccess >= minNumConfirmation {
        break;
      }
      var n := rand.Next();
      if n.ErrNoItem? {
        break;
      }
      CountedSuccesses(answers, v.Handled, v.numSuccess, v.hasTxn, v.retTxn);
      AskOneMore(answers, minNumConfirmation, queried, n.value);
      batch := {n.value};
    }
    TakenDiffer(rand.Taken, rand.items);
    TakenIsEveryone(rand, answers);
    CountsWritten(answers, queried, v.numSuccess, v.hasTxn, v.retTxn);
    if v.numSuccess > 0 && v.numSuccess >= minNumConfirmation {
      if !v.hasTxn {
        return NoTxnDetail, queried;
      }
      return Confirmed(v.retTxn), queried;
    }
    return TooLessConfirmation(v.numSuccess), queried;
  }

  /** Two of three sharders are needed: one sends the signed transaction, one only a block hash, and one fails. */
  method BlockHashCounts() returns (r: TrustedResult)
    ensures r == Confirmed("t")
  {
    hide Successes;
    var answers := [Txn("t", true), BlockHashOnly, Failed];
    ghost var queried;
    r, queried := VerifyTransactionTrusted(answers, 50);
    SuccessesWritten(answers, Everyone(answers));
    assert Successes(answers, Everyone(answers)) == {0, 1};
    ghost var known := set i | i in queried && i < |answers| && (answers[i].Txn? || answers[i].BlockHashOnly?);
    SubsetSize(known, {0, 1});
    if 0 !in queried {
      SubsetSize(known, {1});
    }
  }

  function AtLeastOne(n: nat): nat {
    if n == 0 then 1 else n
  }

  lemma FewerSuccesses(answers: seq<Reply>, some: set<nat>, all: set<nat>)
    requires some <= all
    ensures |Successes(answers, some)| <= |Successes(answers, all)|
  {
    SubsetSize(Successes(answers, some), Successes(answers, all));
  }

  lemma {:induction false} SubsetSize(a: set<nat>, b: set<nat>)
    requires a <= b
    ensures |a| <= |b|
    decreases a
  {
    if a != {} {
      var x :| x in a;
      SubsetSize(a - {x}, b - {x});
    }
  }
}
