/**
 What the transfer workers of the downloader have in common: jobs kept in one list and served in turn by an endless
 loop, while other threads register, pause, resume and cancel them.
 */
module Scheduler {
  import opened Utils

  /** complete is 1 once the worker is done with a job, for whatever reason, and 2 once it was cancelled. */
  datatype Job<+T> = Job(complete: nat, paused: bool, work: T)

  /**
   A kind of transfer: how an order becomes a piece of work, if it is not refused, and what a turn does to the work.
   */
  datatype Worker<!T, !S, !A> = Worker(accept: S -> Option<T>, turn: (T, A) -> Job<T>)

  datatype Action<+S, +A> =
    | Start(order: S)
    | Pause(no: nat, on: bool)
    | Cancel(no: nat)
    | Visit(no: nat, attempt: A)

  /** The worker passes over jobs that are done or paused. */
  function Served<T, S, A>(w: Worker<T, S, A>, j: Job<T>, a: A): Job<T> {
    if j.complete != 0 || j.paused then j else w.turn(j.work, a)
  }

  function Update<T, S, A>(w: Worker<T, S, A>, j: Job<T>, a: Action<S, A>): Job<T> {
    match a
    case Start(_) => j
    case Pause(_, on) => if j.complete != 0 then j else j.(paused := on)
    case Cancel(_) => if j.complete != 0 then j else j.(paused := true, complete := 2)
    case Visit(_, attempt) => Served(w, j, attempt)
  }

  /** One action of any thread. */
  function Step<T, S, A>(w: Worker<T, S, A>, jobs: seq<Job<T>>, a: Action<S, A>): (r: seq<Job<T>>)
    ensures |jobs| <= |r|
  {
    if a.Start? then
      match w.accept(a.order)
      case None => jobs
      case Some(work) => jobs + [Job(0, false, work)]
    else if a.no < |jobs| then jobs[a.no := Update(w, jobs[a.no], a)]
    else jobs
  }

  function Run<T, S, A>(w: Worker<T, S, A>, jobs: seq<Job<T>>, acts: seq<Action<S, A>>): (r: seq<Job<T>>)
    ensures |jobs| <= |r|
  {
    if acts == [] then jobs else Step(w, Run(w, jobs, acts[..|acts| - 1]), acts[|acts| - 1])
  }

  function TurnsOf<S, A>(acts: seq<Action<S, A>>, i: nat): nat {
    if acts == [] then 0
    else
      var a := acts[|acts| - 1];
      TurnsOf(acts[..|acts| - 1], i) + if a.Visit? && a.no == i then 1 else 0
  }

  lemma RunSnoc<T, S, A>(w: Worker<T, S, A>, jobs: seq<Job<T>>, acts: seq<Action<S, A>>, a: Action<S, A>)
    ensures Run(w, jobs, acts + [a]) == Step(w, Run(w, jobs, acts), a)
  {
    assert (acts + [a])[..|acts + [a]| - 1] == acts;
    hide Step;
  }

  lemma {:induction false} RunAppend<T, S, A>(w: Worker<T, S, A>, jobs: seq<Job<T>>, a: seq<Action<S, A>>,
      b: seq<Action<S, A>>)
    ensures Run(w, jobs, a + b) == Run(w, Run(w, jobs, a), b)
  {
    if b == [] {
      assert a + b == a;
    } else {
      RunAppend(w, jobs, a, b[..|b| - 1]);
      assert (a + b)[..|a + b| - 1] == a + b[..|b| - 1];
    }
  }

  lemma {:induction false} TurnsAdd<S, A>(a: seq<Action<S, A>>, b: seq<Action<S, A>>, i: nat)
    ensures TurnsOf(a + b, i) == TurnsOf(a, i) + TurnsOf(b, i)
  {
    if b == [] {
      assert a + b == a;
    } else {
      TurnsAdd(a, b[..|b| - 1], i);
      assert (a + b)[..|a + b| - 1] == a + b[..|b| - 1];
    }
  }

  /** A job that is done or cancelled is never changed again. */
  lemma {:induction false} DoneIsFinal<T, S, A>(w: Worker<T, S, A>, jobs: seq<Job<T>>, acts: seq<Action<S, A>>, i: nat)
    requires i < |jobs| && jobs[i].complete != 0
    ensures Run(w, jobs, acts)[i] == jobs[i]
  {
    if acts != [] {
      DoneIsFinal(w, jobs, acts[..|acts| - 1], i);
    }
  }

  /**
   A paused job rests: until it is resumed or cancelled, nothing that happens changes it. Pausing it again does not.
   */
  lemma {:induction false} PausedRests<T, S, A>(w: Worker<T, S, A>, jobs: seq<Job<T>>, acts: seq<Action<S, A>>, i: nat)
    requires i < |jobs| && jobs[i].paused
    requires forall a :: a in acts && ((a.Pause? && !a.on) || a.Cancel?) ==> a.no != i
    ensures Run(w, jobs, acts)[i] == jobs[i]
  {
    if acts != [] {
      var before := acts[..|acts| - 1];
      assert acts[|acts| - 1] in acts && forall a :: a in before ==> a in acts;
      PausedRests(w, jobs, before, i);
    }
  }

  /** A running job that is paused keeps its work until it is resumed or cancelled. */
  lemma PauseHolds<T, S, A>(w: Worker<T, S, A>, jobs: seq<Job<T>>, acts: seq<Action<S, A>>, i: nat)
    requires i < |jobs| && jobs[i].complete == 0
    requires forall a :: a in acts && ((a.Pause? && !a.on) || a.Cancel?) ==> a.no != i
    ensures Run(w, Step(w, jobs, Pause(i, true)), acts)[i] == Job(0, true, jobs[i].work)
  {
    PausedRests(w, Step(w, jobs, Pause(i, true)), acts, i);
  }

  /** A job that is resumed has the worker's turn at its next visit, whatever happens to other jobs in between. */
  lemma {:induction false} ResumedIsServed<T, S, A>(w: Worker<T, S, A>, jobs: seq<Job<T>>, acts: seq<Action<S, A>>,
                                                    i: nat, attempt: A)
    requires i < |jobs| && jobs[i].complete == 0
    requires forall a :: a in acts && !a.Start? ==> a.no != i
    ensures var r := Run(w, Step(w, jobs, Pause(i, false)), acts);
            r[i] == Job(0, false, jobs[i].work) && Step(w, r, Visit(i, attempt))[i] == w.turn(jobs[i].work, attempt)
  {
    if acts != [] {
      var before := acts[..|acts| - 1];
      assert acts[|acts| - 1] in acts && forall a :: a in before ==> a in acts;
      ResumedIsServed(w, jobs, before, i, attempt);
    }
  }

  /** A cancelled job stays cancelled, and its work is left as it was. */
  lemma CancelIsFinal<T, S, A>(w: Worker<T, S, A>, jobs: seq<Job<T>>, acts: seq<Action<S, A>>, i: nat)
    requires i < |jobs| && jobs[i].complete == 0
    ensures Run(w, Step(w, jobs, Cancel(i)), acts)[i] == Job(2, true, jobs[i].work)
  {
    DoneIsFinal(w, Step(w, jobs, Cancel(i)), acts, i);
  }

  /** The actions addressed to job number i. */
  function Addressed<S, A>(acts: seq<Action<S, A>>, i: nat): seq<Action<S, A>> {
    if acts == [] then []
    else
      var a := acts[|acts| - 1];
      Addressed(acts[..|acts| - 1], i) + if !a.Start? && a.no == i then [a] else []
  }

  lemma AddressedSnoc<S, A>(acts: seq<Action<S, A>>, i: nat)
    requires acts != []
    ensures var a, before := acts[|acts| - 1], Addressed(acts[..|acts| - 1], i);
            Addressed(acts, i) == if !a.Start? && a.no == i then before + [a] else before
  {
  }

  lemma StepAt<T, S, A>(w: Worker<T, S, A>, jobs: seq<Job<T>>, a: Action<S, A>, i: nat)
    requires i < |jobs|
    ensures Step(w, jobs, a)[i] == if !a.Start? && a.no == i then Update(w, jobs[i], a) else jobs[i]
  {
    hide Update;
  }

  /**
   The steps of this model touch one job each, so what becomes of a job depends only on the actions addressed to it.
   */
  lemma {:induction false} OthersDoNotMatter<T, S, A>(w: Worker<T, S, A>, jobs: seq<Job<T>>,
                                                      acts: seq<Action<S, A>>, i: nat)
    requires i < |jobs|
    ensures Run(w, jobs, acts)[i] == Run(w, jobs, Addressed(acts, i))[i]
  {
    if acts == [] {
      assert Addressed(acts, i) == [];
    } else {
      hide Run, Update, Addressed, Step;
      var before, a := acts[..|acts| - 1], acts[|acts| - 1];
      assert before + [a] == acts;
      OthersDoNotMatter(w, jobs, before, i);
      AddressedSnoc(acts, i);
      RunSnoc(w, jobs, before, a);
      RunSnoc(w, jobs, Addressed(before, i), a);
      StepAt(w, Run(w, jobs, before), a, i);
      StepAt(w, Run(w, jobs, Addressed(before, i)), a, i);
    }
  }

  /** What a turn keeps true of the work is kept by every run. */
  lemma {:induction false} RunKeeps<T(!new), S, A(!new)>(w: Worker<T, S, A>, keeps: T -> bool,
                                                        jobs: seq<Job<T>>, acts: seq<Action<S, A>>, i: nat)
    requires i < |jobs| && keeps(jobs[i].work)
    requires forall t, a :: keeps(t) ==> keeps(w.turn(t, a).work)
    ensures keeps(Run(w, jobs, acts)[i].work)
  {
    if acts != [] {
      RunKeeps(w, keeps, jobs, acts[..|acts| - 1], i);
    }
  }

  /** A count of chunks and a count of bytes that fit each other still fit after one more chunk, which may be short. */
  lemma OneMoreChunk(times: nat, bytes: nat, chunk: nat, sent: nat)
    requires times <= bytes <= times * chunk && 0 < sent <= chunk
    ensures times + 1 <= bytes + sent <= (times + 1) * chunk
  {
    assert (times + 1) * chunk == times * chunk + chunk;
  }

  // ---- progress ----

  /** Job i is only ever served, and each of its turns is a full one. */
  ghost predicate OnlyServed<S, A>(acts: seq<Action<S, A>>, i: nat, full: A -> bool) {
    forall a :: a in acts && !a.Start? && a.no == i ==> a.Visit? && full(a.attempt)
  }

  /**
   If each full turn takes a job from where it stands after t turns to where it stands after t + 1, so do whole runs.
   */
  lemma {:induction false} TurnsMakeProgress<T(!new), S, A(!new)>(
      w: Worker<T, S, A>, stands: (Job<T>, nat) -> bool, full: A -> bool,
      jobs: seq<Job<T>>, acts: seq<Action<S, A>>, i: nat)
    requires i < |jobs| && stands(jobs[i], 0) && OnlyServed(acts, i, full)
    requires forall j, t: nat, a :: stands(j, t) && full(a) ==> stands(Served(w, j, a), t + 1)
    ensures stands(Run(w, jobs, acts)[i], TurnsOf(acts, i))
  {
    if acts != [] {
      var before, a := acts[..|acts| - 1], acts[|acts| - 1];
      assert a in acts && forall x :: x in before ==> x in acts;
      TurnsMakeProgress(w, stands, full, jobs, before, i);
      StepAt(w, Run(w, jobs, before), a, i);
      hide Step, Served;
    }
  }

  function CeilDiv(n: nat, d: nat): nat
    requires d > 0
  {
    (n + d - 1) / d
  }

  lemma ChunkArithmetic(size: nat, b: nat, t: nat)
    requires b > 0
    ensures t * b >= size <==> t >= CeilDiv(size, b)
  {
    var c := CeilDiv(size, b);
    assert c * b + (size + b - 1) % b == size + b - 1;
    if t >= c {
      MulMonotone(c, t, b);
    } else {
      MulMonotone(t, c - 1, b);
      assert (c - 1) * b == c * b - b;
    }
  }

  lemma MulMonotone(x: nat, y: nat, b: nat)
    requires x <= y
    ensures x * b <= y * b
  {
    assert y * b == x * b + (y - x) * b;
  }

  /** Where a transfer of so many bytes stands after t turns that each move a chunk of b, the last one what is left. */
  predicate AfterChunks(pos: nat, times: nat, complete: nat, size: nat, b: nat, t: nat)
    requires b > 0
  {
    var chunks := CeilDiv(size, b);
    times == Min(t, chunks) && pos == Min(t * b, size) && complete == if t > chunks then 1 else 0
  }

  lemma NothingMoved(size: nat, b: nat)
    requires b > 0
    ensures AfterChunks(0, 0, 0, size, b, 0)
  {
  }

  /** The next turn, of a transfer that is not complete and of one that is. */
  lemma ChunkMoved(pos: nat, times: nat, complete: nat, size: nat, b: nat, t: nat)
    requires b > 0 && AfterChunks(pos, times, complete, size, b, t)
    ensures pos <= size
    ensures complete == 0 && pos < size ==> AfterChunks(pos + Min(b, size - pos), times + 1, 0, size, b, t + 1)
    ensures complete == 0 && pos == size ==> AfterChunks(pos, times, 1, size, b, t + 1)
    ensures complete != 0 ==> AfterChunks(pos, times, complete, size, b, t + 1)
  {
    ChunkArithmetic(size, b, t);
    ChunkArithmetic(size, b, t + 1);
    assert (t + 1) * b == t * b + b;
    hide CeilDiv;
  }

  lemma CompleteAfter(pos: nat, times: nat, complete: nat, size: nat, b: nat, t: nat)
    requires b > 0 && AfterChunks(pos, times, complete, size, b, t)
    ensures complete == 1 <==> t >= CeilDiv(size, b) + 1
    ensures complete == 1 ==> times == CeilDiv(size, b) && pos == size
  {
    ChunkArithmetic(size, b, t);
    hide CeilDiv;
  }

  /** The list of jobs, and what other threads do to it. */
  class Pool<T, S, A> {
    const worker: Worker<T, S, A>
    var jobs: seq<Job<T>>

    constructor (worker: Worker<T, S, A>)
      ensures this.worker == worker && jobs == []
    {
      this.worker, jobs := worker, [];
    }

    /** Registers an order; 0 is the answer when it is refused, otherwise the job's number from 1. */
    method Register(order: S) returns (no: nat)
      modifies this
      ensures jobs == Step(worker, old(jobs), Start(order))
      ensures match worker.accept(order)
              case None => no == 0 && jobs == old(jobs)
              case Some(work) => no == |jobs| && jobs == old(jobs) + [Job(0, false, work)]
    {
      var work := worker.accept(order);
      if work == None { return 0; }
      jobs := jobs + [Job(0, false, work.value)];
      return |jobs|;
    }

    method PauseJob(no: nat, on: bool) returns (ok: bool)
      modifies this
      ensures ok == (1 <= no <= |old(jobs)| && old(jobs)[no - 1].complete == 0)
      ensures jobs == if no == 0 then old(jobs) else Step(worker, old(jobs), Pause(no - 1, on))
      ensures jobs == if ok then old(jobs)[no - 1 := Job(0, on, old(jobs)[no - 1].work)] else old(jobs)
    {
      if no < 1 || no > |jobs| || jobs[no - 1].complete != 0 { return false; }
      jobs := jobs[no - 1 := jobs[no - 1].(paused := on)];
      return true;
    }

    method CancelJob(no: nat) returns (ok: bool)
      modifies this
      ensures ok == (1 <= no <= |old(jobs)| && old(jobs)[no - 1].complete == 0)
      ensures jobs == if no == 0 then old(jobs) else Step(worker, old(jobs), Cancel(no - 1))
      ensures jobs == if ok then old(jobs)[no - 1 := Job(2, true, old(jobs)[no - 1].work)] else old(jobs)
    {
      if no < 1 || no > |jobs| || jobs[no - 1].complete != 0 { return false; }
      var paused := PauseJob(no, true);
      jobs := jobs[no - 1 := jobs[no - 1].(complete := 2)];
      return true;
    }
  }
}
