/** submitTxn in zcncore/transaction_base.go as a protocol: one goroutine per miner, an atomic failure counter,
    the channel failC that is closed at most once, the channel resultC with room for one response per miner, and
    one select. A run is any interleaving of the steps below. */
module SubmitProtocol {

  const STATUS_OK: int := 200

  /** What a goroutine gets: no request could be built, the post failed, or a response with a status code. */
  datatype Answer = NoRequest | NoResponse | Response(code: int)

  /** After its answer is counted a goroutine may still have to close failC or to send on resultC. */
  datatype Worker = Asking | Closing(answer: Answer) | Sending(answer: Answer) | Done(answer: Answer)

  datatype TxnStatus = StatusSuccess | StatusError

  datatype State = State(
    workers: seq<Worker>,
    failedCount: nat,
    closes: nat,                  // calls of close(failC); a second one would panic
    sent: seq<int>,               // status codes sent on resultC so far
    taken: nat,                   // how many of them the select has received
    completions: seq<TxnStatus>,  // calls of completeTxn
    evicted: bool)                // transaction.Cache.Evict was called

  function Init(n: nat): State {
    State(seq(n, _ => Asking), 0, 0, [], 0, [], false)
  }

  datatype Action = GetAnswer(i: nat, answer: Answer) | Close(i: nat) | Send(i: nat) | SelectClosed | SelectResult

  predicate Enabled(s: State, a: Action) {
    match a
    case GetAnswer(i, _) => i < |s.workers| && s.workers[i].Asking?
    case Close(i) => i < |s.workers| && s.workers[i].Closing?
    case Send(i) => i < |s.workers| && s.workers[i].Sending? && s.workers[i].answer.Response? && HasRoom(s)
    case SelectClosed => s.completions == [] && s.closes > 0
    case SelectResult => s.completions == [] && s.taken < |s.sent|
  }

  /** resultC can hold one response per miner. */
  predicate HasRoom(s: State) {
    |s.sent| < s.taken + |s.workers|
  }

  function Next(s: State, a: Action): State
    requires Enabled(s, a)
  {
    match a
    case GetAnswer(i, answer) =>
      if answer == Response(STATUS_OK) then
        s.(workers := s.workers[i := Sending(answer)])
      else
        // the last goroutine to fail gives the signal: it sends its response, or closes failC if it has none
        var last := s.failedCount + 1 == |s.workers|;
        var worker := if !last then Done(answer) else if answer.Response? then Sending(answer) else Closing(answer);
        s.(workers := s.workers[i := worker], failedCount := s.failedCount + 1)
    case Close(i) =>
      s.(workers := s.workers[i := Done(s.workers[i].answer)], closes := s.closes + 1)
    case Send(i) =>
      s.(workers := s.workers[i := Done(s.workers[i].answer)], sent := s.sent + [s.workers[i].answer.code])
    case SelectClosed =>
      s.(completions := [StatusError], evicted := true)
    case SelectResult =>
      if s.sent[s.taken] == STATUS_OK then s.(taken := s.taken + 1, completions := [StatusSuccess])
      else s.(taken := s.taken + 1, completions := [StatusError], evicted := true)
  }

  ghost predicate Step(s: State, t: State) {
    exists a :: Enabled(s, a) && t == Next(s, a)
  }

  ghost predicate IsRun(n: nat, run: seq<State>) {
    && |run| > 0 && run[0] == Init(n)
    && forall k :: 0 < k < |run| ==> Step(run[k - 1], run[k])
  }

  /** Nothing can move any more. */
  ghost predicate Stuck(s: State) {
    forall a :: !Enabled(s, a)
  }

  predicate AnsweredOk(w: Worker) {
    !w.Asking? && w.answer == Response(STATUS_OK)
  }

  // ----- counting

  datatype Measure = Failed | Ok | OkDone | LastSignal | Finished | Work

  function Weight(m: Measure, w: Worker): nat {
    match m
    case Failed => if !w.Asking? && !AnsweredOk(w) then 1 else 0
    case Ok => if AnsweredOk(w) then 1 else 0
    case OkDone => if w.Done? && AnsweredOk(w) then 1 else 0
    case LastSignal => if w.Closing? || (w.Sending? && !AnsweredOk(w)) then 1 else 0
    case Finished => if w.Done? then 1 else 0
    case Work => if w.Asking? then 2 else if w.Done? then 0 else 1
  }

  function Total(m: Measure, ws: seq<Worker>): nat {
    if ws == [] then 0 else Weight(m, ws[0]) + Total(m, ws[1..])
  }

  lemma {:induction false} TotalUpdate(m: Measure, ws: seq<Worker>, i: nat, w: Worker)
    requires i < |ws|
    ensures Total(m, ws[i := w]) == Total(m, ws) - Weight(m, ws[i]) + Weight(m, w)
  {
    var updated := ws[i := w];
    if i == 0 {
      assert updated[1..] == ws[1..];
    } else {
      assert updated[1..] == ws[1..][i - 1 := w];
      TotalUpdate(m, ws[1..], i - 1, w);
    }
  }

  lemma {:induction false} TotalAtLeast(m: Measure, ws: seq<Worker>, i: nat)
    requires i < |ws|
    ensures Total(m, ws) >= Weight(m, ws[i])
  {
    if i > 0 {
      TotalAtLeast(m, ws[1..], i - 1);
    }
  }

  /** A goroutine is done, or failed, or answered ok, in at most one way each. */
  lemma {:induction false} TotalBounds(ws: seq<Worker>)
    ensures Total(Failed, ws) + Total(Ok, ws) <= |ws|
    ensures Total(OkDone, ws) <= Total(Ok, ws)
    ensures Total(Finished, ws) <= |ws|
  {
    if ws != [] {
      TotalBounds(ws[1..]);
    }
  }

  lemma {:induction false} NotAllFinished(ws: seq<Worker>, i: nat)
    requires i < |ws| && !ws[i].Done?
    ensures Total(Finished, ws) < |ws|
  {
    if i == 0 {
      TotalBounds(ws[1..]);
    } else {
      NotAllFinished(ws[1..], i - 1);
    }
  }

  lemma {:induction false} AllDone(ws: seq<Worker>)
    requires forall i :: 0 <= i < |ws| ==> ws[i].Done?
    ensures Total(LastSignal, ws) == 0 && Total(OkDone, ws) == Total(Ok, ws)
    ensures Total(Failed, ws) + Total(Ok, ws) == |ws|
  {
    if ws != [] {
      AllDone(ws[1..]);
    }
  }

  lemma {:induction false} TotalOfInit(m: Measure, n: nat)
    ensures Total(m, Init(n).workers) == n * Weight(m, Asking)
  {
    var ws := Init(n).workers;
    if n > 0 {
      assert ws[1..] == Init(n - 1).workers;
      TotalOfInit(m, n - 1);
    }
  }

  function CountOk(sent: seq<int>): nat {
    if sent == [] then 0 else CountOk(sent[..|sent| - 1]) + if sent[|sent| - 1] == STATUS_OK then 1 else 0
  }

  lemma CountOkAppend(sent: seq<int>, code: int)
    ensures CountOk(sent + [code]) == CountOk(sent) + if code == STATUS_OK then 1 else 0
  {
    assert (sent + [code])[..|sent|] == sent;
  }

  lemma {:induction false} CountOkAt(sent: seq<int>, k: nat)
    requires k < |sent|
    ensures CountOk(sent) <= |sent|
    ensures sent[k] == STATUS_OK ==> CountOk(sent) >= 1
    ensures sent[k] != STATUS_OK ==> CountOk(sent) < |sent|
  {
    var front := sent[..|sent| - 1];
    if k < |front| {
      CountOkAt(front, k);
    } else if |front| > 0 {
      CountOkAt(front, 0);
    }
  }

  // ----- the invariant

  /** Exactly one last signal, given or due, once all miners have failed, and none before; every ok answer that is
      done was sent; the completion agrees with the answers. */
  ghost predicate Inv(n: nat, s: State) {
    && |s.workers| == n
    && s.failedCount == Total(Failed, s.workers)
    && |s.sent| >= CountOk(s.sent)
    && s.closes + Total(LastSignal, s.workers) + (|s.sent| - CountOk(s.sent)) == (if n > 0 && s.failedCount == n then 1 else 0)
    && CountOk(s.sent) == Total(OkDone, s.workers)
    && |s.sent| <= Total(Finished, s.workers)
    && (forall i :: 0 <= i < n && s.workers[i].Sending? ==> s.workers[i].answer.Response?)
    && (forall i :: 0 <= i < n && s.workers[i].Closing? ==> !s.workers[i].answer.Response?)
    && Completed(n, s)
  }

  ghost predicate Completed(n: nat, s: State) {
    && s.taken <= |s.sent|
    && s.evicted == (s.completions == [StatusError])
    && (s.completions == []
        || (s.completions == [StatusSuccess] && CountOk(s.sent) > 0)
        || (s.completions == [StatusError] && s.failedCount == n && n > 0))
    && (s.completions == [] ==> s.taken == 0)
  }

  lemma InitInv(n: nat)
    ensures Inv(n, Init(n))
  {
    TotalOfInit(Failed, n);
    TotalOfInit(LastSignal, n);
    TotalOfInit(OkDone, n);
  }

  lemma AnswerKeepsInv(n: nat, s: State, i: nat, answer: Answer)
    requires Inv(n, s) && Enabled(s, GetAnswer(i, answer))
    ensures Inv(n, Next(s, GetAnswer(i, answer)))
  {
    hide Total;
    var w := Next(s, GetAnswer(i, answer)).workers[i];
    TotalUpdate(Failed, s.workers, i, w);
    TotalUpdate(LastSignal, s.workers, i, w);
    TotalUpdate(OkDone, s.workers, i, w);
    TotalUpdate(Finished, s.workers, i, w);
    TotalBounds(Next(s, GetAnswer(i, answer)).workers);
  }

  lemma CloseKeepsInv(n: nat, s: State, i: nat)
    requires Inv(n, s) && Enabled(s, Close(i))
    ensures Inv(n, Next(s, Close(i)))
  {
    var w := Done(s.workers[i].answer);
    TotalUpdate(Failed, s.workers, i, w);
    TotalUpdate(LastSignal, s.workers, i, w);
    TotalUpdate(OkDone, s.workers, i, w);
    TotalUpdate(Finished, s.workers, i, w);
    TotalAtLeast(LastSignal, s.workers, i);
    ClosingFailed(n, s, i);
  }

  /** Only a goroutine without a response closes. */
  lemma ClosingFailed(n: nat, s: State, i: nat)
    requires Inv(n, s) && i < n && s.workers[i].Closing?
    ensures !AnsweredOk(s.workers[i])
  {
    TotalAtLeast(LastSignal, s.workers, i);
    TotalBounds(s.workers);
    if AnsweredOk(s.workers[i]) {
      TotalAtLeast(Ok, s.workers, i);
    }
  }

  lemma SendKeepsInv(n: nat, s: State, i: nat)
    requires Inv(n, s) && Enabled(s, Send(i))
    ensures Inv(n, Next(s, Send(i)))
  {
    hide Total, CountOk;
    var w := Done(s.workers[i].answer);
    TotalUpdate(Failed, s.workers, i, w);
    TotalUpdate(LastSignal, s.workers, i, w);
    TotalUpdate(OkDone, s.workers, i, w);
    TotalUpdate(Finished, s.workers, i, w);
    CountOkAppend(s.sent, s.workers[i].answer.code);
  }

  lemma SelectKeepsInv(n: nat, s: State, a: Action)
    requires Inv(n, s) && (a.SelectClosed? || a.SelectResult?) && Enabled(s, a)
    ensures Inv(n, Next(s, a))
  {
    if a.SelectResult? {
      CountOkAt(s.sent, s.taken);
    }
  }

  lemma StepKeepsInv(n: nat, s: State, a: Action)
    requires Inv(n, s) && Enabled(s, a)
    ensures Inv(n, Next(s, a))
  {
    match a
    case GetAnswer(i, answer) => AnswerKeepsInv(n, s, i, answer);
    case Close(i) => CloseKeepsInv(n, s, i);
    case Send(i) => SendKeepsInv(n, s, i);
    case SelectClosed => SelectKeepsInv(n, s, a);
    case SelectResult => SelectKeepsInv(n, s, a);
  }

  lemma {:induction false} RunKeepsInv(n: nat, run: seq<State>, k: nat)
    requires IsRun(n, run) && k < |run|
    ensures Inv(n, run[k])
  {
    if k == 0 {
      InitInv(n);
    } else {
      RunKeepsInv(n, run, k - 1);
      assert Step(run[k - 1], run[k]);
      var a :| Enabled(run[k - 1], a) && run[k] == Next(run[k - 1], a);
      StepKeepsInv(n, run[k - 1], a);
    }
  }

  // ----- what every run keeps

  /** In every state of every run: failC is closed at most once, no send ever has to wait, there is at most one
      completion, and it is a success exactly when some miner answered 200. */
  lemma SubmitSafety(n: nat, run: seq<State>, k: nat)
    requires IsRun(n, run) && k < |run|
    ensures |run[k].workers| == n && run[k].closes <= 1
    ensures forall i :: 0 <= i < |run[k].workers| && run[k].workers[i].Sending? ==> Enabled(run[k], Send(i))
    ensures forall i :: 0 <= i < |run[k].workers| && run[k].workers[i].Sending? ==>
              run[k].workers[i].answer.Response? && |run[k].sent| - run[k].taken < n
    ensures forall i :: 0 <= i < |run[k].workers| && run[k].workers[i].Closing? ==> !run[k].workers[i].answer.Response?
    ensures |run[k].completions| <= 1
    ensures run[k].completions != [] ==>
      (run[k].completions == [StatusSuccess] <==> exists i :: 0 <= i < n && AnsweredOk(run[k].workers[i]))
    ensures run[k].completions == [StatusSuccess] <==>
      run[k].completions != [] &&
      exists i :: 0 <= i < n && !run[k].workers[i].Asking? && run[k].workers[i].answer == Response(200)
    ensures run[k].evicted <==> run[k].completions == [StatusError]
  {
    RunKeepsInv(n, run, k);
    var s := run[k];
    forall i | 0 <= i < n && s.workers[i].Sending?
      ensures Enabled(s, Send(i))
    {
      NotAllFinished(s.workers, i);
    }
    if exists i :: 0 <= i < n && AnsweredOk(s.workers[i]) {
      var i :| 0 <= i < n && AnsweredOk(s.workers[i]);
      TotalAtLeast(Ok, s.workers, i);
      TotalBounds(s.workers);
    }
    if CountOk(s.sent) > 0 {
      var i := SomeOkDone(s.workers);
    }
  }

  lemma {:induction false} SomeOkDone(ws: seq<Worker>) returns (i: nat)
    requires Total(OkDone, ws) > 0
    ensures i < |ws| && AnsweredOk(ws[i])
  {
    if Weight(OkDone, ws[0]) > 0 {
      i := 0;
    } else {
      var j := SomeOkDone(ws[1..]);
      i := j + 1;
    }
  }

  /** A run that can go no further has completed, unless there are no miners to ask; then it waits for ever. */
  lemma StuckMeansCompleted(n: nat, run: seq<State>)
    requires IsRun(n, run) && Stuck(run[|run| - 1])
    ensures var s := run[|run| - 1];
            |s.workers| == n && (forall i :: 0 <= i < n ==> s.workers[i].Done?) && (|s.completions| == 1 <==> n >= 1)
  {
    var s := run[|run| - 1];
    RunKeepsInv(n, run, |run| - 1);
    forall i | 0 <= i < n
      ensures s.workers[i].Done?
    {
      assert !Enabled(s, GetAnswer(i, NoRequest)) && !Enabled(s, Close(i)) && !Enabled(s, Send(i));
      if s.workers[i].Sending? {
        NotAllFinished(s.workers, i);
      }
    }
    AllDone(s.workers);
    assert !Enabled(s, SelectClosed) && !Enabled(s, SelectResult);
    TotalBounds(s.workers);
  }

  // ----- termination

  function Rank(s: State): nat {
    Total(Work, s.workers) + if s.completions == [] then 1 else 0
  }

  lemma StepLowersRank(s: State, a: Action)
    requires Enabled(s, a)
    ensures Rank(Next(s, a)) < Rank(s)
  {
    match a
    case GetAnswer(i, answer) => TotalUpdate(Work, s.workers, i, Next(s, a).workers[i]);
    case Close(i) => TotalUpdate(Work, s.workers, i, Next(s, a).workers[i]);
    case Send(i) => TotalUpdate(Work, s.workers, i, Next(s, a).workers[i]);
    case SelectClosed =>
    case SelectResult =>
  }

  lemma {:induction false} RankAlongRun(n: nat, run: seq<State>, k: nat)
    requires IsRun(n, run) && k < |run|
    ensures Rank(run[k]) + k <= 2 * n + 1
  {
    if k == 0 {
      TotalOfInit(Work, n);
    } else {
      RankAlongRun(n, run, k - 1);
      assert Step(run[k - 1], run[k]);
      var a :| Enabled(run[k - 1], a) && run[k] == Next(run[k - 1], a);
      StepLowersRank(run[k - 1], a);
    }
  }

  /** No run takes more than 2n+1 steps, so every maximal run completes. */
  lemma RunsAreShort(n: nat, run: seq<State>)
    requires IsRun(n, run)
    ensures |run| <= 2 * n + 2
  {
    RankAlongRun(n, run, |run| - 1);
  }
}
