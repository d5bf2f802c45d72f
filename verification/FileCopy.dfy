/**
 The file copying worker. It reads its source sequentially, so a write that stores less than was read leaves the two
 files out of step.
 */
module FileCopy {
  import opened Bytes
  import opened Scheduler
  import opened Utils

  datatype Copy = Copy(
    source: seq<byte>,
    fileSize: nat,
    bytesAtaTime: nat,
    movePos: nat,
    bytes: nat,
    totalTimes: nat,
    sourcePos: nat,              // the read position the operating system keeps for the source
    dest: seq<byte>)

  datatype Order = Order(source: seq<byte>, bytesAtaTime: nat)

  /** How the outside world treats one turn: a pause in the middle, the bytes read and the bytes written. */
  datatype Attempt = Attempt(pausedMeanwhile: bool, read: nat, written: nat)

  /** The size kept for a copy is the low half of the 64-bit size. */
  function NewCopy(source: seq<byte>, bytesAtaTime: nat): Copy {
    Copy(source, |source| % WRAP, bytesAtaTime, 0, 0, 0, 0, [])
  }

  predicate Valid(c: Copy) {
    && c.fileSize == |c.source| % WRAP
    && 0 < c.bytesAtaTime
    && |c.dest| == c.bytes == c.movePos <= c.fileSize
    && c.movePos <= c.sourcePos <= |c.source|
    && (c.sourcePos == c.movePos || UniformFrom(c.source, 0) ==> c.dest == c.source[..c.movePos])
  }

  type Work = c: Copy | Valid(c) witness NewCopy([], 1)

  /** One turn of the worker. */
  function Turn(c: Copy, a: Attempt): Job<Copy>
    requires Valid(c)
  {
    if c.movePos == c.fileSize then Job(1, false, c)
    else if a.pausedMeanwhile then Job(0, true, c)
    else
      var asked := Min(c.bytesAtaTime, c.fileSize - c.movePos);
      var got := Min(Min(a.read, asked), |c.source| - c.sourcePos);
      if got == 0 then Job(1, false, c) else Job(0, false, Advanced(c, got, Min(a.written, got)))
  }

  /** The copy after a chunk was read and the first `stored` bytes of it were written. */
  function Advanced(c: Copy, got: nat, stored: nat): Copy
    requires c.sourcePos + got <= |c.source| && stored <= got
  {
    c.(sourcePos := c.sourcePos + got,
       dest := c.dest + c.source[c.sourcePos..c.sourcePos + got][..stored],
       movePos := c.movePos + stored,
       bytes := c.bytes + stored,
       totalTimes := c.totalTimes + 1)
  }

  /** The gap between what was read and what was stored never shrinks. */
  lemma TurnKeepsValid(c: Copy, a: Attempt)
    requires Valid(c)
    ensures var r := Turn(c, a).work;
            && Valid(r) && r.source == c.source && r.bytesAtaTime == c.bytesAtaTime
            && c.sourcePos - c.movePos <= r.sourcePos - r.movePos
  {
    var asked := Min(c.bytesAtaTime, c.fileSize - c.movePos);
    var got := Min(Min(a.read, asked), |c.source| - c.sourcePos);
    hide UniformFrom, Valid, Advanced;
    AdvancedKeepsValid(c, got, Min(a.written, got));
  }

  lemma AdvancedKeepsValid(c: Copy, got: nat, stored: nat)
    requires Valid(c) && stored <= got <= c.fileSize - c.movePos && c.sourcePos + got <= |c.source|
    ensures var r := Advanced(c, got, stored);
            && Valid(r) && r.source == c.source && r.bytesAtaTime == c.bytesAtaTime
            && c.sourcePos - c.movePos <= r.sourcePos - r.movePos
  {
    if c.sourcePos == c.movePos || UniformFrom(c.source, 0) {
      NextBytes(c, got, stored);
    }
    hide UniformFrom;
  }

  /** The bytes a write adds are the next ones of the source, unless the files are out of step and they differ. */
  lemma NextBytes(c: Copy, got: nat, stored: nat)
    requires Valid(c) && stored <= got && c.sourcePos + got <= |c.source|
    requires c.sourcePos == c.movePos || UniformFrom(c.source, 0)
    ensures c.dest + c.source[c.sourcePos..c.sourcePos + got][..stored] == c.source[..c.movePos + stored]
  {
    var chunk, next := c.source[c.sourcePos..c.sourcePos + got][..stored], c.source[c.movePos..c.movePos + stored];
    forall k | 0 <= k < stored ensures chunk[k] == next[k] {
      assert chunk[k] == c.source[c.sourcePos + k] && next[k] == c.source[c.movePos + k];
    }
    assert chunk == next;
    assert c.dest + next == c.source[..c.movePos + stored];
  }

  /**
   How a turn ends: what completes or pauses a copy, and that it then copies nothing; any other turn reads and counts.
   */
  lemma TurnEndsExactlyWhen(c: Copy, a: Attempt)
    requires Valid(c)
    ensures var j, atEnd := Turn(c, a), c.movePos == c.fileSize;
            && (j.complete == 1 <==> atEnd || (!a.pausedMeanwhile && (a.read == 0 || c.sourcePos == |c.source|)))
            && (j.complete != 1 ==> j.complete == 0)
            && (j.paused <==> !atEnd && a.pausedMeanwhile)
            && (j.complete == 1 || j.paused ==> j.work == c)
            && (j.complete == 0 && !j.paused ==>
                  j.work.totalTimes == c.totalTimes + 1 && c.sourcePos < j.work.sourcePos <= c.sourcePos + a.read)
  {
    hide UniformFrom;
  }

  /** The copy is one of this order. */
  predicate Ordered(c: Copy, o: Order) {
    c.source == o.source && c.bytesAtaTime == o.bytesAtaTime
  }

  /** A chunk size of zero is refused, and nothing else. A new copy has read and stored nothing. */
  function Accept(o: Order): (r: Option<Work>)
    ensures r.None? <==> o.bytesAtaTime == 0
    ensures r.Some? ==> r.value.movePos == r.value.sourcePos == 0 && r.value.dest == [] && Ordered(r.value, o)
  {
    if o.bytesAtaTime == 0 then None else Some(NewCopy(o.source, o.bytesAtaTime))
  }

  function WorkTurn(c: Work, a: Attempt): Job<Work> {
    TurnKeepsValid(c, a);
    var r := Turn(c, a);
    Job(r.complete, r.paused, r.work)
  }

  const COPIER: Worker<Work, Order, Attempt> := Worker(Accept, WorkTurn)

  // ---- safety ----

  /**
   A copy that shows as many bytes as its size is a true copy exactly when the source is below 4 GB, whatever was
   paused, read short or written short.
   */
  lemma FullCountMeansTrueCopy(acts: seq<Action<Order, Attempt>>, i: nat)
    requires i < |Run(COPIER, [], acts)|
    requires var c := Run(COPIER, [], acts)[i].work; c.bytes == c.fileSize
    ensures var c := Run(COPIER, [], acts)[i].work; c.dest == c.source <==> |c.source| < 0x1_0000_0000
  {
    hide Run;
    FullCopy(Run(COPIER, [], acts)[i].work);
  }

  lemma FullCopy(c: Work)
    requires c.bytes == c.fileSize
    ensures c.dest == c.source <==> |c.source| < WRAP
  {
    hide UniformFrom;
    if |c.source| < WRAP {
      assert c.sourcePos == c.movePos == |c.source|;
      assert c.source[..|c.source|] == c.source;
    }
  }

  /** After a short write the job can no longer reach its full count, whatever follows. */
  lemma ShortWriteNeverFinishes(jobs: seq<Job<Work>>, acts: seq<Action<Order, Attempt>>, i: nat)
    requires i < |jobs| && jobs[i].work.movePos < jobs[i].work.sourcePos && |jobs[i].work.source| < WRAP
    ensures var c := Run(COPIER, jobs, acts)[i].work;
            c.source == jobs[i].work.source && c.movePos < c.sourcePos && c.bytes < c.fileSize
  {
    hide Turn, Run, UniformFrom;
    var source := jobs[i].work.source;
    var keeps := (c: Work) => c.source == source && c.movePos < c.sourcePos;
    forall c: Work, a | keeps(c) ensures keeps(COPIER.turn(c, a).work) {
      TurnKeepsValid(c, a);
    }
    RunKeeps(COPIER, keeps, jobs, acts, i);
  }

  function Jobs(acts: seq<Action<Order, Attempt>>): seq<Job<Work>> {
    Run(COPIER, [], acts)
  }

  /** Every copy of this order, in every run, has a destination that is the first movePos bytes of its source. */
  ghost predicate AlwaysPrefix(o: Order) {
    forall acts, i: nat {:trigger Jobs(acts)[i]} ::
      i < |Jobs(acts)| && Ordered(Jobs(acts)[i].work, o) ==> Prefix(Jobs(acts)[i].work)
  }

  predicate Prefix(c: Copy) {
    c.movePos <= |c.source| && c.dest == c.source[..c.movePos]
  }

  /** That can be relied on only for sources with nothing to copy or nothing to tell apart. */
  lemma DestinationIsPrefixExactlyWhen(o: Order)
    requires o.bytesAtaTime > 0
    ensures AlwaysPrefix(o) <==>
              |o.source| % 0x1_0000_0000 == 0 || forall k :: 0 <= k < |o.source| ==> o.source[k] == o.source[0]
  {
    if |o.source| % WRAP == 0 || UniformFrom(o.source, 0) {
      forall acts, i: nat | i < |Jobs(acts)| && Ordered(Jobs(acts)[i].work, o) ensures Prefix(Jobs(acts)[i].work) {
        var c: Work := Jobs(acts)[i].work;
      }
    } else {
      var q: nat :| q < |o.source| && o.source[q] != o.source[0];
      var acts := LostBytes(o, q);
      var c := Jobs(acts)[0].work;
      assert c.dest[0] != c.source[..c.movePos][0];
      assert Ordered(c, o) && !Prefix(c);
    }
  }

  /** The first byte of the destination can be any byte of the source. */
  lemma LostBytes(o: Order, q: nat) returns (acts: seq<Action<Order, Attempt>>)
    requires o.bytesAtaTime > 0 && 0 < |o.source| % WRAP && q < |o.source|
    ensures |Jobs(acts)| == 1
    ensures var c := Jobs(acts)[0].work; Ordered(c, o) && c.movePos == 1 && c.dest == [o.source[q]]
  {
    var before := SkipTo(o, q);
    OneMore(before, Visit(0, STORED));
    acts := before + [Visit(0, STORED)];
    var c: Work := Jobs(before)[0].work;
    assert c.dest == [];
    assert [] + c.source[q..q + 1][..1] == [o.source[q]];
    hide Jobs;
  }

  const STORED: Attempt := Attempt(false, 1, 1)
  const LOST: Attempt := Attempt(false, 1, 0)

  lemma OneMore(acts: seq<Action<Order, Attempt>>, a: Action<Order, Attempt>)
    ensures Jobs(acts + [a]) == Step(COPIER, Jobs(acts), a)
  {
    RunSnoc(COPIER, [], acts, a);
  }

  /** Writes that store nothing are not noticed, and the bytes read for them are gone. */
  lemma {:induction false} SkipTo(o: Order, q: nat) returns (acts: seq<Action<Order, Attempt>>)
    requires o.bytesAtaTime > 0 && 0 < |o.source| % WRAP && q < |o.source|
    ensures |Jobs(acts)| == 1
    ensures var j := Jobs(acts)[0];
            Ordered(j.work, o) && j.complete == 0 && !j.paused && j.work.movePos == 0 && j.work.sourcePos == q
  {
    if q == 0 {
      OneMore([], Start(o));
      assert Jobs([]) == [];
      acts := [] + [Start(o)];
    } else {
      var before := SkipTo(o, q - 1);
      OneMore(before, Visit(0, LOST));
      acts := before + [Visit(0, LOST)];
    }
  }

  // ---- progress ----

  /** A turn in which everything asked for is read and stored. */
  predicate Full(a: Attempt, b: nat) {
    !a.pausedMeanwhile && a.read >= b && a.written >= b
  }

  /** A job just started, with a source below 4 GB. */
  predicate Fresh(j: Job<Work>) {
    |j.work.source| < WRAP && j == Job(0, false, NewCopy(j.work.source, j.work.bytesAtaTime))
  }

  /** Job i is only ever served, and each of its turns is a full one. */
  ghost predicate Undisturbed(acts: seq<Action<Order, Attempt>>, i: nat, c: Copy) {
    OnlyServed(acts, i, (a: Attempt) => Full(a, c.bytesAtaTime))
  }

  /** Where an undisturbed job of this order stands after t turns. */
  predicate StandsAfter(o: Order, j: Job<Work>, t: nat) {
    var c := j.work;
    && c.source == o.source && c.bytesAtaTime == o.bytesAtaTime && !j.paused
    && AfterChunks(c.movePos, c.totalTimes, j.complete, c.fileSize, c.bytesAtaTime, t)
    && c.sourcePos == c.movePos
  }

  lemma FullTurn(o: Order, j: Job<Work>, a: Attempt, t: nat)
    requires |o.source| < WRAP && StandsAfter(o, j, t) && Full(a, o.bytesAtaTime)
    ensures StandsAfter(o, Served(COPIER, j, a), t + 1)
  {
    var c := j.work;
    ChunkMoved(c.movePos, c.totalTimes, j.complete, c.fileSize, c.bytesAtaTime, t);
    hide AfterChunks;
    if j.complete == 0 && c.movePos != c.fileSize {
      var asked := Min(c.bytesAtaTime, c.fileSize - c.movePos);
      assert Min(Min(a.read, asked), |c.source| - c.sourcePos) == asked;
      assert Min(a.written, asked) == asked;
    }
  }

  /** Whatever happens to other jobs, an undisturbed job depends on nothing but the number of its own turns. */
  lemma ProgressByTurns(jobs: seq<Job<Work>>, acts: seq<Action<Order, Attempt>>, i: nat)
    requires i < |jobs| && Fresh(jobs[i]) && Undisturbed(acts, i, jobs[i].work)
    ensures var c := jobs[i].work;
            StandsAfter(Order(c.source, c.bytesAtaTime), Run(COPIER, jobs, acts)[i], TurnsOf(acts, i))
  {
    var o := Order(jobs[i].work.source, jobs[i].work.bytesAtaTime);
    var stands := (j: Job<Work>, t: nat) => StandsAfter(o, j, t);
    var full := (a: Attempt) => Full(a, o.bytesAtaTime);
    NothingMoved(jobs[i].work.fileSize, o.bytesAtaTime);
    assert stands(jobs[i], 0);
    hide AfterChunks, Run;
    forall j, t: nat, a | stands(j, t) && full(a) ensures stands(Served(COPIER, j, a), t + 1) {
      FullTurn(o, j, a, t);
    }
    hide StandsAfter, Served;
    TurnsMakeProgress(COPIER, stands, full, jobs, acts, i);
  }

  /** After t turns: complete exactly if t exceeds the number of chunks, and then a true copy made in that many. */
  predicate OnTime(was: Job<Work>, j: Job<Work>, t: nat) {
    var chunks := CeilDiv(was.work.fileSize, was.work.bytesAtaTime);
    && (j.complete == 1 <==> t >= chunks + 1)
    && (j.complete == 1 ==> j.work.totalTimes == chunks && j.work.dest == was.work.source)
  }

  /**
   The job is complete, and a true copy, exactly from its turn number ceil(size / chunk) + 1 on, having stored that
   many chunks.
   */
  lemma CompletesOnTime(jobs: seq<Job<Work>>, acts: seq<Action<Order, Attempt>>, i: nat)
    requires i < |jobs| && Fresh(jobs[i]) && Undisturbed(acts, i, jobs[i].work)
    ensures OnTime(jobs[i], Run(COPIER, jobs, acts)[i], TurnsOf(acts, i))
  {
    hide Run, TurnsOf, CeilDiv;
    ProgressByTurns(jobs, acts, i);
    CompleteCopy(Order(jobs[i].work.source, jobs[i].work.bytesAtaTime), Run(COPIER, jobs, acts)[i], TurnsOf(acts, i));
  }

  lemma CompleteCopy(o: Order, j: Job<Work>, t: nat)
    requires |o.source| < WRAP && StandsAfter(o, j, t)
    ensures j.complete == 1 <==> t >= CeilDiv(|o.source|, o.bytesAtaTime) + 1
    ensures j.complete == 1 ==> j.work.totalTimes == CeilDiv(|o.source|, o.bytesAtaTime) && j.work.dest == o.source
  {
    var c: Work := j.work;
    CompleteAfter(c.movePos, c.totalTimes, j.complete, c.fileSize, c.bytesAtaTime, t);
    hide AfterChunks, CeilDiv;
    assert c.source[..|c.source|] == c.source;
  }

  // ---- the worker ----

  /** A turn of a copy that is not at its end and not paused. */
  method CopyChunk(copy: Copy, a: Attempt) returns (j: Job<Copy>)
    requires Valid(copy) && copy.movePos != copy.fileSize && !a.pausedMeanwhile
    ensures j == Turn(copy, a)
  {
    assert copy.movePos <= copy.fileSize && copy.sourcePos <= |copy.source|;
    hide Valid;
    var c, bytesRead := copy, Min(copy.bytesAtaTime, copy.fileSize - copy.movePos);
    bytesRead := Min(Min(a.read, bytesRead), |c.source| - c.sourcePos);
    if bytesRead == 0 { return Job(1, false, c); }
    var chunk := c.source[c.sourcePos..c.sourcePos + bytesRead];
    c := c.(sourcePos := c.sourcePos + bytesRead);
    bytesRead := Min(a.written, bytesRead);
    c := c.(dest := c.dest + chunk[..bytesRead]);
    c := c.(movePos := c.movePos + bytesRead);
    c := c.(bytes := c.bytes + bytesRead);
    c := c.(totalTimes := c.totalTimes + 1);
    return Job(0, false, c);
  }

  /** The worker's turn for job i: the exits come in the order of the loop body. */
  method Serve(pool: Pool<Work, Order, Attempt>, i: nat, a: Attempt)
    requires i < |pool.jobs| && pool.worker == COPIER
    modifies pool
    ensures pool.jobs == old(pool.jobs)[i := Served(COPIER, old(pool.jobs)[i], a)]
  {
    var j := pool.jobs[i];
    if j.complete != 0 || j.paused { return; }
    var c := j.work;
    TurnKeepsValid(c, a);
    hide Valid;
    if c.movePos == c.fileSize {
      pool.jobs := pool.jobs[i := j.(complete := 1)];
      return;
    }
    if a.pausedMeanwhile {
      pool.jobs := pool.jobs[i := j.(paused := true)];
      return;
    }
    hide Turn;
    var r := CopyChunk(c, a);
    pool.jobs := pool.jobs[i := Job(r.complete, r.paused, r.work)];
  }

  /** One pass of the endless loop over all jobs: each is served exactly once. */
  method Pass(pool: Pool<Work, Order, Attempt>, attempts: seq<Attempt>)
      returns (ghost acts: seq<Action<Order, Attempt>>)
    requires pool.worker == COPIER && |attempts| == |pool.jobs|
    modifies pool
    ensures pool.jobs == Run(COPIER, old(pool.jobs), acts) && |pool.jobs| == |old(pool.jobs)|
    ensures forall i :: 0 <= i < |pool.jobs| ==> TurnsOf(acts, i) == 1
    ensures forall a :: a in acts ==> a.Visit? && a.no < |attempts| && a.attempt == attempts[a.no]
    ensures forall i :: 0 <= i < |pool.jobs| ==> pool.jobs[i] == Served(COPIER, old(pool.jobs)[i], attempts[i])
  {
    hide Served;
    acts := [];
    for i := 0 to |pool.jobs|
      invariant |pool.jobs| == |old(pool.jobs)| && pool.jobs == Run(COPIER, old(pool.jobs), acts)
      invariant forall a :: a in acts ==> a.Visit? && a.no < |attempts| && a.attempt == attempts[a.no]
      invariant forall k :: 0 <= k < |pool.jobs| ==> TurnsOf(acts, k) == if k < i then 1 else 0
      invariant forall k :: 0 <= k < |pool.jobs| ==>
                  pool.jobs[k] == if k < i then Served(COPIER, old(pool.jobs)[k], attempts[k]) else old(pool.jobs)[k]
    {
      Serve(pool, i, attempts[i]);
      acts := acts + [Visit(i, attempts[i])];
    }
  }

  /**
   k passes over freshly started jobs. A job whose reads and writes are all full is complete exactly if k exceeds its
   number of chunks, and is then a true copy, however the other jobs fare.
   */
  method Passes(pool: Pool<Work, Order, Attempt>, k: nat, attempts: seq<Attempt>)
      returns (ghost acts: seq<Action<Order, Attempt>>)
    requires pool.worker == COPIER && |attempts| == |pool.jobs|
    modifies pool
    ensures pool.jobs == Run(COPIER, old(pool.jobs), acts) && |pool.jobs| == |old(pool.jobs)|
    ensures forall i :: 0 <= i < |pool.jobs| ==> TurnsOf(acts, i) == k
    ensures forall a :: a in acts ==> a.Visit? && a.no < |attempts| && a.attempt == attempts[a.no]
    ensures forall i ::
              0 <= i < |pool.jobs| && Fresh(old(pool.jobs)[i]) && Full(attempts[i], old(pool.jobs)[i].work.bytesAtaTime)
              ==> OnTime(old(pool.jobs)[i], pool.jobs[i], k)
  {
    acts := [];
    for n := 0 to k
      invariant |pool.jobs| == |attempts| && pool.jobs == Run(COPIER, old(pool.jobs), acts)
      invariant forall i :: 0 <= i < |attempts| ==> TurnsOf(acts, i) == n
      invariant forall a :: a in acts ==> a.Visit? && a.no < |attempts| && a.attempt == attempts[a.no]
    {
      ghost var more := Pass(pool, attempts);
      RunAppend(COPIER, old(pool.jobs), acts, more);
      forall i: nat | i < |attempts| ensures TurnsOf(acts + more, i) == n + 1 {
        TurnsAdd(acts, more, i);
      }
      acts := acts + more;
    }
    forall i | 0 <= i < |pool.jobs| && Fresh(old(pool.jobs)[i])
        && Full(attempts[i], old(pool.jobs)[i].work.bytesAtaTime)
      ensures OnTime(old(pool.jobs)[i], pool.jobs[i], k)
    {
      CompletesOnTime(old(pool.jobs), acts, i);
    }
  }
}
