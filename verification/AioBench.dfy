/**
 One phase of the queued random-access benchmark: a completion callback that counts a finished
 request and issues the next one until a timer lowers the flag, after which the queue drains.
 */
module AioBench {

  datatype Status = Running | Success | Error

  /**
   What a read or write call reports: accepted; accepted but with an error code left over from an earlier call,
   which the callback takes for a failure; or refused.
   */
  datatype Issue = Queued | QueuedStale | Refused

  /**
   One call of the callback. A transfer that ends well brings its byte count; `aborted` says the last error code
   is the one for cancelled requests, which makes the callback return at once.
   */
  datatype Call = Done(bytes: nat, aborted: bool, issue: Issue) | Broken

  /**
   The shared record of a phase. The last four fields are bookkeeping about the queue of the operating system:
   first calls made, first calls that returned at once, requests in the queue, and requests that will never be counted.
   */
  datatype Phase = Phase(
    aioMax: nat, count: nat, aioNum: nat, status: Status, waitFlag: bool,
    started: nat, skipped: nat, inFlight: nat, lost: nat)

  function Begin(aioMax: nat): Phase {
    Phase(aioMax, 0, 0, Running, true, 0, 0, 0, 0)
  }

  /** Issuing the next request. */
  function IssueNext(p: Phase, issue: Issue): Phase {
    var q := p.(aioNum := p.aioNum + 1);
    match issue
    case Queued => q.(inFlight := q.inFlight + 1)
    case QueuedStale => q.(inFlight := q.inFlight + 1, status := Error)
    case Refused => q.(lost := q.lost + 1, status := Error)
  }

  /** The completion callback. */
  function Callback(p: Phase, call: Call): Phase {
    match call
    case Broken => p.(status := Error)
    case Done(bytes, aborted, issue) =>
      if aborted then p else
        var q := if 0 < bytes then p.(count := p.count + 1) else p;
        if !q.waitFlag then
          if q.aioNum <= q.count then q.(status := Success) else q
        else IssueNext(q, issue)
  }

  predicate Delivers(call: Call) {
    call.Done? && !call.aborted && 0 < call.bytes
  }

  /**
   The main loop starts its aioMax requests by calling the callback itself with no bytes; later the operating system
   calls it for each request that ends; the timer lowers the flag at any time.
   */
  datatype Action = Kick(aborted: bool, issue: Issue) | Complete(call: Call) | Timer

  function Step(p: Phase, a: Action): Phase {
    match a
    case Kick(aborted, issue) =>
      if p.started < p.aioMax then
        Callback(p.(started := p.started + 1, skipped := if aborted then p.skipped + 1 else p.skipped),
            Done(0, aborted, issue))
      else p
    case Complete(call) =>
      if p.started == p.aioMax && p.inFlight > 0 then
        Callback(p.(inFlight := p.inFlight - 1, lost := if Delivers(call) then p.lost else p.lost + 1), call)
      else p
    case Timer => p.(waitFlag := false)
  }

  function Run(p: Phase, acts: seq<Action>): Phase {
    if acts == [] then p else Step(Run(p, acts[..|acts| - 1]), acts[|acts| - 1])
  }

  // ---- what every step keeps ----

  /**
   Every request issued is counted, in the queue, or lost; and success is only ever declared over a settled account.
   */
  predicate Inv(p: Phase) {
    && p.aioNum == p.count + p.inFlight + p.lost
    && p.inFlight <= p.started <= p.aioMax
    && p.skipped <= p.started
    && (p.status == Success ==> !p.waitFlag && p.count == p.aioNum)
    && (p.waitFlag ==> p.started <= p.inFlight + p.lost + p.skipped)
  }

  lemma StepKeepsInv(p: Phase, a: Action)
    requires Inv(p)
    ensures Inv(Step(p, a)) && p.lost <= Step(p, a).lost
  {
    match a
    case Kick(aborted, issue) => KickKeepsInv(p, aborted, issue);
    case Complete(call) => CompleteKeepsInv(p, call);
    case Timer =>
  }

  lemma KickKeepsInv(p: Phase, aborted: bool, issue: Issue)
    requires Inv(p)
    ensures Inv(Step(p, Kick(aborted, issue))) && p.lost <= Step(p, Kick(aborted, issue)).lost
  {
  }

  lemma CompleteKeepsInv(p: Phase, call: Call)
    requires Inv(p)
    ensures Inv(Step(p, Complete(call))) && p.lost <= Step(p, Complete(call)).lost
  {
  }

  lemma {:induction false} RunKeepsInv(p: Phase, acts: seq<Action>)
    requires Inv(p)
    ensures Inv(Run(p, acts)) && p.lost <= Run(p, acts).lost
  {
    if acts != [] {
      RunKeepsInv(p, acts[..|acts| - 1]);
      StepKeepsInv(Run(p, acts[..|acts| - 1]), acts[|acts| - 1]);
    }
  }

  /** In every reachable state the account balances, and the queue is never longer than allowed. */
  lemma AccountBalances(aioMax: nat, acts: seq<Action>)
    ensures var p := Run(Begin(aioMax), acts);
            p.aioNum == p.count + p.inFlight + p.lost && p.inFlight <= aioMax
  {
    AioMaxIsFixed(Begin(aioMax), acts);
    RunKeepsInv(Begin(aioMax), acts);
  }

  lemma {:induction false} AioMaxIsFixed(p: Phase, acts: seq<Action>)
    ensures Run(p, acts).aioMax == p.aioMax
  {
    if acts != [] { AioMaxIsFixed(p, acts[..|acts| - 1]); }
  }

  /** Success means the flag is down, nothing is outstanding, and every request issued has delivered bytes. */
  lemma SuccessIsSettled(aioMax: nat, acts: seq<Action>)
    requires Run(Begin(aioMax), acts).status == Success
    ensures var p := Run(Begin(aioMax), acts); !p.waitFlag && p.inFlight == 0 && p.lost == 0 && p.count == p.aioNum
  {
    RunKeepsInv(Begin(aioMax), acts);
  }

  /** Once a request was refused, broken off, or delivered nothing, no later step of any run declares success. */
  lemma LostMeansNeverSuccess(aioMax: nat, acts: seq<Action>, later: seq<Action>)
    requires Run(Begin(aioMax), acts).lost > 0
    ensures Run(Run(Begin(aioMax), acts), later).status != Success
  {
    RunKeepsInv(Begin(aioMax), acts);
    RunKeepsInv(Run(Begin(aioMax), acts), later);
  }

  /** An event that the phase takes for a failure: a request broken off, or one refused or stale while still issuing. */
  predicate Fails(p: Phase, a: Action) {
    match a
    case Kick(aborted, issue) => p.started < p.aioMax && !aborted && p.waitFlag && issue != Queued
    case Complete(call) =>
      && p.started == p.aioMax && p.inFlight > 0
      && (call.Broken? || (!call.aborted && p.waitFlag && call.issue != Queued))
    case Timer => false
  }

  ghost predicate SomeFailed(p: Phase, acts: seq<Action>) {
    exists n :: 0 <= n < |acts| && Fails(Run(p, acts[..n]), acts[n])
  }

  /** A phase that has not succeeded is in error exactly if one of its events was a failure. */
  lemma {:induction false} ErrorExactlyWhen(aioMax: nat, acts: seq<Action>)
    requires Run(Begin(aioMax), acts).status != Success
    ensures Run(Begin(aioMax), acts).status == Error <==>
              exists n :: 0 <= n < |acts| && Fails(Run(Begin(aioMax), acts[..n]), acts[n])
  {
    assert SomeFailed(Begin(aioMax), acts) <==>
           exists n :: 0 <= n < |acts| && Fails(Run(Begin(aioMax), acts[..n]), acts[n]);
    if acts != [] {
      hide Fails, Step, Inv, SomeFailed;
      var before, a := acts[..|acts| - 1], acts[|acts| - 1];
      RunKeepsInv(Begin(aioMax), before);
      StepFails(Run(Begin(aioMax), before), a);
      SomeFailedSnoc(Begin(aioMax), acts);
      if Run(Begin(aioMax), before).status != Success {
        ErrorExactlyWhen(aioMax, before);
        SomeFailedIs(Begin(aioMax), before);
      }
    }
  }

  lemma SomeFailedIs(p: Phase, acts: seq<Action>)
    ensures SomeFailed(p, acts) <==> exists n :: 0 <= n < |acts| && Fails(Run(p, acts[..n]), acts[n])
  {
  }

  lemma SomeFailedSnoc(p: Phase, acts: seq<Action>)
    requires acts != []
    ensures var before := acts[..|acts| - 1];
            SomeFailed(p, acts) <==> SomeFailed(p, before) || Fails(Run(p, before), acts[|acts| - 1])
  {
    hide Fails, Run;
    var before := acts[..|acts| - 1];
    assert forall n :: 0 <= n <= |before| ==> acts[..n] == before[..n];
    assert before[..|before|] == before;
    if SomeFailed(p, before) {
      var n :| 0 <= n < |before| && Fails(Run(p, before[..n]), before[n]);
      assert Fails(Run(p, acts[..n]), acts[n]);
    }
    if Fails(Run(p, before), acts[|acts| - 1]) {
      assert Fails(Run(p, acts[..|before|]), acts[|before|]);
    }
  }

  lemma StepFails(p: Phase, a: Action)
    requires Inv(p)
    ensures p.status == Success ==> Step(p, a).status == Success
    ensures Step(p, a).status != Success ==> (Step(p, a).status == Error <==> p.status == Error || Fails(p, a))
  {
  }

  // ---- draining ----

  /** Requests that deliver bytes, one after the other. */
  predicate AllDeliver(calls: seq<Action>) {
    forall a :: a in calls ==> a.Complete? && Delivers(a.call)
  }

  /** With the flag down, each delivery before the last one outstanding only counts; the last decides. */
  lemma {:induction false} DrainCounts(p: Phase, calls: seq<Action>)
    requires Inv(p) && !p.waitFlag && p.started == p.aioMax
    requires AllDeliver(calls) && 0 < |calls| <= p.inFlight
    ensures var q := Run(p, calls);
            && q.count == p.count + |calls| && q.inFlight == p.inFlight - |calls|
            && q == p.(count := q.count, inFlight := q.inFlight, status := q.status)
            && q.status == if |calls| == p.inFlight && p.lost == 0 then Success else p.status
  {
    var before := calls[..|calls| - 1];
    assert calls[|calls| - 1] in calls && forall a :: a in before ==> a in calls;
    if before != [] {
      DrainCounts(p, before);
    } else {
      assert Run(p, before) == p;
    }
  }

  /**
   A phase whose flag falls after all requests were started, with none lost or skipped, has a full queue, and
   exactly aioNum - count further deliveries bring it to success.
   */
  lemma DrainReachesSuccess(aioMax: nat, acts: seq<Action>, calls: seq<Action>)
    requires var p := Run(Begin(aioMax), acts);
             0 < aioMax && p.waitFlag && p.started == aioMax && p.lost == 0 && p.skipped == 0
    requires var p := Run(Begin(aioMax), acts); AllDeliver(calls) && |calls| <= p.inFlight
    ensures var p := Run(Begin(aioMax), acts);
            && p.inFlight == aioMax == p.aioNum - p.count
            && (Run(Step(p, Timer), calls).status == Success <==> |calls| == p.aioNum - p.count)
  {
    AioMaxIsFixed(Begin(aioMax), acts);
    RunKeepsInv(Begin(aioMax), acts);
    var p := Run(Begin(aioMax), acts);
    StepKeepsInv(p, Timer);
    if calls != [] {
      DrainCounts(Step(p, Timer), calls);
    }
  }

  /**
   With everything started and nothing queued, no event changes the verdict any more: without one the waiting loop
   does not end.
   */
  lemma {:induction false} EmptyQueueKeepsVerdict(p: Phase, acts: seq<Action>)
    requires p.started == p.aioMax && p.inFlight == 0
    ensures var q := Run(p, acts); q.status == p.status && q.inFlight == 0 && q.started == q.aioMax
  {
    if acts != [] { EmptyQueueKeepsVerdict(p, acts[..|acts| - 1]); }
  }

  /**
   When all that is queued delivers, a running phase with its flag down succeeds if nothing was lost, else runs for
   ever.
   */
  lemma DrainSucceedsOrHangs(p: Phase, calls: seq<Action>, later: seq<Action>)
    requires Inv(p) && !p.waitFlag && p.started == p.aioMax && p.status == Running
    requires AllDeliver(calls) && 0 < |calls| == p.inFlight
    ensures if p.lost == 0 then Run(p, calls).status == Success else Run(Run(p, calls), later).status == Running
  {
    DrainCounts(p, calls);
    if p.lost != 0 {
      EmptyQueueKeepsVerdict(Run(p, calls), later);
    }
  }

  /** A transfer of no bytes, or a cancelled one, is such a loss although it raises no error. */
  lemma SilentLossIsReachable()
    ensures var full := Step(Step(Begin(2), Kick(false, Queued)), Kick(false, Queued));
            var p := Step(Step(full, Timer), Complete(Done(0, false, Queued)));
            p.status == Running && !p.waitFlag && p.started == p.aioMax && p.lost == 1 && p.inFlight == 1
  {
  }

  // ---- when success can still come ----

  lemma {:induction false} RunAppend(p: Phase, a: seq<Action>, b: seq<Action>)
    ensures Run(p, a + b) == Run(Run(p, a), b)
  {
    if b == [] {
      assert a + b == a;
    } else {
      RunAppend(p, a, b[..|b| - 1]);
      assert (a + b)[..|a + b| - 1] == a + b[..|b| - 1];
    }
  }

  /** Events that lead to success: the timer, the first calls still to come, and the delivery of all that is queued. */
  lemma ReachSuccess(p: Phase) returns (acts: seq<Action>)
    requires Inv(p) && p.lost == 0 && (p.inFlight > 0 || p.started < p.aioMax)
    ensures Run(p, acts).status == Success
  {
    var q := Step(p, Timer);
    assert Run(p, []) == p;
    assert Run(p, [Timer]) == q by { assert [Timer][..0] == []; }
    StepKeepsInv(p, Timer);
    var rest := DrainAfterTimer(q);
    RunAppend(p, [Timer], rest);
    acts := [Timer] + rest;
  }

  lemma {:induction false} DrainAfterTimer(q: Phase) returns (acts: seq<Action>)
    requires Inv(q) && !q.waitFlag && q.lost == 0 && (q.inFlight > 0 || q.started < q.aioMax)
    ensures Run(q, acts).status == Success
    decreases q.aioMax - q.started
  {
    if q.started == q.aioMax {
      acts := seq(q.inFlight, i => Complete(Done(1, false, Queued)));
      DrainCounts(q, acts);
    } else {
      var kick := [Kick(false, Queued)];
      assert Run(q, []) == q;
      assert Run(q, kick) == Step(q, kick[0]) by { assert kick[..0] == []; }
      if q.inFlight == 0 {
        acts := kick;
      } else {
        StepKeepsInv(q, kick[0]);
        var rest := DrainAfterTimer(Step(q, kick[0]));
        RunAppend(q, kick, rest);
        acts := kick + rest;
      }
    }
  }

  /**
   Whether a phase that has not succeeded still can, whatever its status: exactly if nothing was lost and something is
   queued or still to be started. So an error is final exactly otherwise.
   */
  lemma SuccessPossibleExactlyWhen(p: Phase)
    requires Inv(p) && p.status != Success
    ensures (exists acts :: Run(p, acts).status == Success) <==> p.lost == 0 && (p.inFlight > 0 || p.started < p.aioMax)
  {
    if p.lost == 0 && (p.inFlight > 0 || p.started < p.aioMax) {
      var acts := ReachSuccess(p);
      assert Run(p, acts).status == Success;
    }
    forall acts | Run(p, acts).status == Success
      ensures p.lost == 0 && (p.inFlight > 0 || p.started < p.aioMax)
    {
      RunKeepsInv(p, acts);
      if p.started == p.aioMax && p.inFlight == 0 { EmptyQueueKeepsVerdict(p, acts); }
    }
  }

  /**
   A case: a left-over error code marks the phase as failed, and the delivery of that very request declares success.
   */
  lemma StaleErrorIsForgotten()
    ensures var p := Step(Step(Begin(1), Kick(false, QueuedStale)), Timer);
            p.status == Error && Step(p, Complete(Done(1, false, Queued))).status == Success
  {
  }

  // ---- waiting ----

  /**
   Waiting for a verdict: each batch is what happens during one alertable sleep, after which the status is looked at.
   */
  function Awaited(p: Phase, batches: seq<seq<Action>>): Phase
    decreases |batches|
  {
    if batches == [] then p
    else if Run(p, batches[0]).status != Running then Run(p, batches[0])
    else Awaited(Run(p, batches[0]), batches[1..])
  }

  lemma RunSnoc(p: Phase, acts: seq<Action>, n: nat)
    requires n < |acts|
    ensures Run(p, acts[..n + 1]) == Step(Run(p, acts[..n]), acts[n])
  {
    assert acts[..n + 1][..n] == acts[..n];
  }

  /** Waiting ends at the first batch after which the phase is not running; what would happen later does not count. */
  lemma {:induction false} WaitEndsAtVerdict(p: Phase, batches: seq<seq<Action>>, n: nat)
    requires n < |batches| && Run(p, Joined(batches[..n + 1])).status != Running
    requires forall k :: 0 < k <= n ==> Run(p, Joined(batches[..k])).status == Running
    ensures Awaited(p, batches) == Run(p, Joined(batches[..n + 1]))
    decreases n
  {
    var first, rest := batches[0], batches[1..];
    assert Joined([first]) == first + Joined([]) && batches[..1] == [first];
    forall k: nat | 0 < k <= n + 1
      ensures Run(p, Joined(batches[..k])) == Run(Run(p, first), Joined(rest[..k - 1]))
    {
      assert batches[..k][1..] == rest[..k - 1];
      RunAppend(p, first, Joined(rest[..k - 1]));
    }
    if n > 0 {
      forall k | 0 < k <= n - 1 ensures Run(Run(p, first), Joined(rest[..k])).status == Running {
        assert Run(p, Joined(batches[..k + 1])).status == Running;
      }
      assert rest[..0] == [] && Run(p, Joined(batches[..1])).status == Running;
      WaitEndsAtVerdict(Run(p, first), rest, n - 1);
    }
  }

  /** All that happens, batch by batch. */
  function Joined(batches: seq<seq<Action>>): seq<Action>
    decreases |batches|
  {
    if batches == [] then [] else batches[0] + Joined(batches[1..])
  }

  // ---- the record and its callback ----

  class AioMsg {
    var count: nat
    var aioNum: nat
    var aioMax: nat
    var status: Status
    var waitFlag: bool
    var started: nat
    var skipped: nat
    var inFlight: nat
    var lost: nat

    ghost function View(): Phase
      reads this
    {
      Phase(aioMax, count, aioNum, status, waitFlag, started, skipped, inFlight, lost)
    }

    constructor (max: nat)
      ensures View() == Begin(max)
    {
      aioMax, count, aioNum, status, waitFlag := max, 0, 0, Running, true;
      started, skipped, inFlight, lost := 0, 0, 0, 0;
    }

    method AIOCompletionRoutine(call: Call)
      modifies this
      ensures View() == Callback(old(View()), call)
    {
      if call.Broken? {
        status := Error;
        return;
      }
      if call.aborted { return; }
      if 0 < call.bytes { count := count + 1; }
      if !waitFlag {
        if aioNum <= count { status := Success; }
        return;
      }
      aioNum := aioNum + 1;
      match call.issue
      case Queued => inFlight := inFlight + 1;
      case QueuedStale => inFlight := inFlight + 1; status := Error;
      case Refused => lost := lost + 1; status := Error;
    }

    /** What the environment does next. */
    method Happen(a: Action)
      modifies this
      ensures View() == Step(old(View()), a)
    {
      match a
      case Kick(aborted, issue) =>
        if started < aioMax {
          started := started + 1;
          if aborted { skipped := skipped + 1; }
          AIOCompletionRoutine(Done(0, aborted, issue));
        }
      case Complete(call) =>
        if started == aioMax && inFlight > 0 {
          inFlight := inFlight - 1;
          if !Delivers(call) { lost := lost + 1; }
          AIOCompletionRoutine(call);
        }
      case Timer => waitFlag := false;
    }

    /**
     The waiting loop. It ends when the status has left Running; only a phase that ended in success is scored, and its
     account is then settled.
     */
    method Await(batches: seq<seq<Action>>) returns (scored: bool)
      requires Inv(View())
      modifies this
      ensures Inv(View()) && View() == Awaited(old(View()), batches)
      ensures scored <==> status == Success
      ensures scored ==> !waitFlag && inFlight == 0 && lost == 0 && count == aioNum
    {
      for i := 0 to |batches|
        invariant Inv(View()) && Awaited(old(View()), batches) == Awaited(View(), batches[i..])
      {
        ghost var before := View();
        for j := 0 to |batches[i]|
          invariant Inv(View()) && View() == Run(before, batches[i][..j])
        {
          StepKeepsInv(View(), batches[i][j]);
          RunSnoc(before, batches[i], j);
          Happen(batches[i][j]);
        }
        assert batches[i][..|batches[i]|] == batches[i] && batches[i..][1..] == batches[i + 1..];
        if status != Running { break; }
      }
      return status == Success;
    }
  }
}
