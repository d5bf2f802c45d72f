/**
 The upload worker. Before each read it moves the read position of a file to the place the server has reached, but the
 distance it moves by is a signed 32-bit number: from 2 GB on the move fails and the file is read on from where it
 stands.
 */
module Upload {
  import opened Bytes
  import opened Scheduler
  import opened Utils

  /** The first position the seek cannot reach. */
  const LIMIT: nat := 0x8000_0000

  datatype Upload = Upload(
    fromFile: bool,
    source: seq<byte>,           // the file, locked against writing, or the private copy of the memory block
    fileSize: nat,
    bytesAtaTime: nat,
    movePos: nat,
    bytesWritten: nat,
    writeTimes: nat,
    newUpload: bool,
    filePos: nat,                // the read position the operating system keeps for the file
    remote: seq<byte>)           // what the server has received

  datatype Order = Order(fromFile: bool, source: seq<byte>, bytesAtaTime: nat)

  /** Where in a turn of a file job a pause arrives. */
  datatype Interruption = NoPause | BeforeRead | BeforeWrite

  /** How the outside world treats one turn of the worker. */
  datatype Attempt = Attempt(
    connected: bool,             // the remote directory and file could be opened
    pause: Interruption,
    read: nat,                   // bytes the file had ready
    written: nat)                // bytes the connection took; 0 for a failed write

  /** The size kept for a job is the low half of the 64-bit size. */
  function NewUpload(o: Order): Upload {
    Upload(o.fromFile, o.source, |o.source| % WRAP, o.bytesAtaTime, 0, 0, 0, true, 0, [])
  }

  /** Where the next chunk is taken from. */
  function ReadPos(u: Upload): nat {
    if !u.fromFile || u.movePos < LIMIT then u.movePos else u.filePos
  }

  /** The bytes handed to the connection in a turn: a file may give less than was asked for. */
  function Got(u: Upload, a: Attempt): nat
    requires u.movePos <= u.fileSize && ReadPos(u) <= |u.source|
  {
    var asked := Min(u.bytesAtaTime, u.fileSize - u.movePos);
    if u.fromFile then Min(Min(a.read, asked), |u.source| - ReadPos(u)) else asked
  }

  /** One turn of the worker. */
  function Turn(u: Upload, a: Attempt): Job<Upload>
    requires u.movePos <= u.fileSize <= |u.source| && ReadPos(u) <= |u.source|
  {
    if u.newUpload then Job(if a.connected then 0 else 1, false, u.(newUpload := false))
    else if u.movePos == u.fileSize then Job(1, false, u)
    else if u.fromFile && a.pause == BeforeRead then Job(0, true, u.(filePos := ReadPos(u)))
    else Transfer(u, a)
  }

  /** A read moves the file's position. */
  function AfterRead(u: Upload, got: nat): Upload {
    if u.fromFile then u.(filePos := ReadPos(u) + got) else u
  }

  /** The read and the write of a turn, with a pause between them. */
  function Transfer(u: Upload, a: Attempt): Job<Upload>
    requires u.movePos <= u.fileSize <= |u.source| && ReadPos(u) <= |u.source|
  {
    var got := Got(u, a);
    var sent := Min(a.written, got);
    var v := AfterRead(u, got);
    if u.fromFile && a.pause == BeforeWrite then Job(0, true, v)
    else if sent == 0 then Job(1, false, v)
    else Job(0, false, Advanced(v, ReadPos(u), sent))
  }

  /** The upload after `sent` bytes read at pos were written. */
  function Advanced(u: Upload, pos: nat, sent: nat): Upload
    requires pos + sent <= |u.source|
  {
    u.(movePos := u.movePos + sent,
       bytesWritten := u.bytesWritten + sent,
       writeTimes := u.writeTimes + 1,
       remote := u.remote + u.source[pos..pos + sent])
  }

  // ---- what every step keeps ----

  /**
   What makes an upload immune to the failing seek: memory, a size within its reach, or nothing to tell apart beyond
   it.
   */
  predicate SeekSafe(fromFile: bool, source: seq<byte>) {
    !fromFile || |source| % WRAP <= LIMIT || UniformFrom(source, LIMIT)
  }

  predicate Prefix(u: Upload) {
    u.movePos <= |u.source| && u.remote == u.source[..u.movePos]
  }

  /** The counts agree, and beyond the seek's reach the file is never read behind the place the server has reached. */
  predicate Counts(u: Upload) {
    && u.fileSize == |u.source| % WRAP
    && 0 < u.bytesAtaTime
    && u.bytesWritten == u.movePos == |u.remote| <= u.fileSize
    && u.writeTimes <= u.movePos <= u.writeTimes * u.bytesAtaTime
    && u.filePos <= |u.source|
    && (u.fromFile && LIMIT <= u.movePos ==> u.movePos <= u.filePos)
  }

  predicate Valid(u: Upload) {
    && Counts(u)
    && (ReadPos(u) == u.movePos || SeekSafe(u.fromFile, u.source) ==> Prefix(u))
  }

  type Work = u: Upload | Valid(u) witness NewUpload(Order(false, [], 1))

  lemma Positions(u: Upload)
    requires Counts(u)
    ensures u.movePos <= u.fileSize <= |u.source| && u.movePos <= ReadPos(u) <= |u.source| && 0 < u.bytesAtaTime
  {
  }

  /** One written chunk, read at ReadPos(u) where the file stands got bytes further afterwards. */
  lemma AdvancedKeepsCounts(u: Upload, got: nat, sent: nat)
    requires Counts(u) && 0 < sent <= got <= u.bytesAtaTime && u.movePos + got <= u.fileSize
        && ReadPos(u) + got <= |u.source|
    ensures Counts(Advanced(AfterRead(u, got), ReadPos(u), sent))
  {
    OneMoreChunk(u.writeTimes, u.movePos, u.bytesAtaTime, sent);
  }

  /** The bytes a write adds are the next ones of the source, unless the seek failed and they differ. */
  lemma NextBytes(u: Upload, sent: nat)
    requires Counts(u) && Prefix(u) && ReadPos(u) + sent <= |u.source|
    requires ReadPos(u) == u.movePos || SeekSafe(u.fromFile, u.source)
    requires u.movePos + sent <= u.fileSize
    ensures u.remote + u.source[ReadPos(u)..ReadPos(u) + sent] == u.source[..u.movePos + sent]
  {
    var pos := ReadPos(u);
    var chunk, next := u.source[pos..pos + sent], u.source[u.movePos..u.movePos + sent];
    forall k | 0 <= k < sent ensures chunk[k] == next[k] {
      assert chunk[k] == u.source[pos + k] && next[k] == u.source[u.movePos + k];
      if pos != u.movePos {
        assert u.source[pos + k] == u.source[LIMIT] == u.source[u.movePos + k];
      }
    }
    assert chunk == next;
    assert u.source[..u.movePos] + next == u.source[..u.movePos + sent];
  }

  lemma AdvancedKeepsValid(u: Upload, got: nat, sent: nat)
    requires Valid(u) && 0 < sent <= got <= u.bytesAtaTime && u.movePos + got <= u.fileSize
        && ReadPos(u) + got <= |u.source|
    ensures Valid(Advanced(AfterRead(u, got), ReadPos(u), sent))
  {
    AdvancedKeepsCounts(u, got, sent);
    Positions(u);
    if ReadPos(u) == u.movePos || SeekSafe(u.fromFile, u.source) {
      NextBytes(u, sent);
    }
    hide SeekSafe, UniformFrom;
  }

  /** A chunk that is read and not sent. */
  lemma ReadKeepsValid(u: Upload, got: nat)
    requires Valid(u) && ReadPos(u) + got <= |u.source|
    ensures Valid(AfterRead(u, got))
  {
    hide SeekSafe;
  }

  /** A turn keeps the counts, and the prefix while the file stands right or the upload is immune. */
  lemma TurnKeepsValid(u: Upload, a: Attempt)
    requires Valid(u)
    ensures u.movePos <= u.fileSize <= |u.source| && ReadPos(u) <= |u.source|
    ensures Valid(Turn(u, a).work)
  {
    Positions(u);
    hide Valid, Counts, ReadPos, Transfer;
    if u.newUpload {
      OpenedIsValid(u);
    } else {
      TransferKeepsValid(u, a);
      if u.fromFile { ReadKeepsValid(u, 0); }
    }
  }

  lemma TransferKeepsValid(u: Upload, a: Attempt)
    requires Valid(u) && !u.newUpload
    ensures u.movePos <= u.fileSize <= |u.source| && ReadPos(u) <= |u.source|
    ensures Valid(Transfer(u, a).work)
  {
    Positions(u);
    GotFits(u, a);
    hide Valid, Counts, ReadPos, Got, Advanced, AfterRead;
    var got := Got(u, a);
    ReadKeepsValid(u, got);
    if Min(a.written, got) > 0 {
      AdvancedKeepsValid(u, got, Min(a.written, got));
    }
  }

  lemma OpenedIsValid(u: Upload)
    requires Valid(u)
    ensures Valid(u.(newUpload := false))
  {
    hide SeekSafe;
  }

  lemma GotFits(u: Upload, a: Attempt)
    requires u.movePos <= u.fileSize <= |u.source| && ReadPos(u) <= |u.source|
    ensures Got(u, a) <= u.bytesAtaTime && u.movePos + Got(u, a) <= u.fileSize && ReadPos(u) + Got(u, a) <= |u.source|
  {
  }

  /** The order stays, and beyond the seek's reach the gap between read and sent never shrinks. */
  lemma GapNeverShrinks(u: Upload, a: Attempt)
    requires Valid(u)
    ensures u.movePos <= u.fileSize <= |u.source| && ReadPos(u) <= |u.source|
    ensures var r := Turn(u, a).work;
            && r.fromFile == u.fromFile && r.source == u.source && r.bytesAtaTime == u.bytesAtaTime
            && (u.fromFile && LIMIT <= u.movePos ==> u.filePos - u.movePos <= r.filePos - r.movePos)
  {
    Positions(u);
    hide Valid, Counts;
  }

  /** The upload is one of this order. */
  predicate Ordered(u: Upload, o: Order) {
    u.fromFile == o.fromFile && u.source == o.source && u.bytesAtaTime == o.bytesAtaTime
  }

  /** The connection takes nothing, or the file yields nothing. */
  predicate NothingMoves(u: Upload, a: Attempt) {
    a.written == 0 || (u.fromFile && (a.read == 0 || ReadPos(u) == |u.source|))
  }

  /** How a turn ends: what completes or pauses an upload, and that it then sends nothing. */
  lemma TurnEndsExactlyWhen(u: Upload, a: Attempt)
    requires Valid(u)
    ensures u.movePos <= u.fileSize <= |u.source| && ReadPos(u) <= |u.source|
    ensures var j, atEnd, stopped := Turn(u, a), u.movePos == u.fileSize, u.fromFile && a.pause != NoPause;
            && (j.complete == 1 <==>
                  if u.newUpload then !a.connected else atEnd || (!stopped && NothingMoves(u, a)))
            && (j.complete != 1 ==> j.complete == 0)
            && (j.paused <==> !u.newUpload && !atEnd && stopped)
            && !j.work.newUpload
            && (u.newUpload || j.complete == 1 || j.paused ==> j.work.movePos == u.movePos && j.work.remote == u.remote)
            && (j.paused && a.pause == BeforeRead ==> j.work.filePos == ReadPos(u))
  {
    Positions(u);
    hide Valid, Counts, ReadPos;
  }

  /** A chunk size of zero is refused, and nothing else. A new upload has sent nothing. */
  function Accept(o: Order): (r: Option<Work>)
    ensures r.None? <==> o.bytesAtaTime == 0
    ensures r.Some? ==> r.value.newUpload && r.value.movePos == 0 && r.value.remote == [] && Ordered(r.value, o)
  {
    if o.bytesAtaTime == 0 then None else Some(NewUpload(o))
  }

  function WorkTurn(u: Work, a: Attempt): Job<Work> {
    TurnKeepsValid(u, a);
    var r := Turn(u, a);
    Job(r.complete, r.paused, r.work)
  }

  const UPLOADER: Worker<Work, Order, Attempt> := Worker(Accept, WorkTurn)

  function Jobs(acts: seq<Action<Order, Attempt>>): seq<Job<Work>> {
    Run(UPLOADER, [], acts)
  }

  // ---- what the server has ----

  /**
   Whatever the threads do, the counts shown agree with each other and with the number of bytes sent, and as long as the
   file stands where the next byte to send is, the server holds exactly the first movePos bytes of the source.
   */
  lemma CountsAndBytesAgree(acts: seq<Action<Order, Attempt>>, i: nat)
    requires i < |Jobs(acts)|
    ensures var u := Jobs(acts)[i].work;
            && u.bytesWritten == u.movePos == |u.remote| <= u.fileSize
            && u.writeTimes <= u.bytesWritten <= u.writeTimes * u.bytesAtaTime
            && (u.movePos < LIMIT || u.filePos == u.movePos ==> u.remote == u.source[..u.movePos])
  {
    var u: Work := Jobs(acts)[i].work;
  }

  /**
   An upload that shows as many bytes written as its size has sent its whole source exactly when that is below 4 GB.
   */
  lemma FullCountMeansWholeSource(acts: seq<Action<Order, Attempt>>, i: nat)
    requires i < |Jobs(acts)|
    requires var u := Jobs(acts)[i].work; u.bytesWritten == u.fileSize
    ensures var u := Jobs(acts)[i].work; u.remote == u.source <==> |u.source| < 0x1_0000_0000
  {
    var u: Work := Jobs(acts)[i].work;
    if |u.source| < WRAP {
      assert ReadPos(u) == u.movePos == |u.source|;
      assert u.source[..|u.source|] == u.source;
    }
  }

  /** Every upload of this order, in every run, leaves the server with the first movePos bytes of its source. */
  ghost predicate AlwaysPrefix(o: Order) {
    forall acts, i: nat {:trigger Jobs(acts)[i]} ::
      i < |Jobs(acts)| && Ordered(Jobs(acts)[i].work, o) ==> Prefix(Jobs(acts)[i].work)
  }

  /**
   The server always holds a prefix exactly for uploads from memory, sizes of at most 2 GB, and files whose bytes from
   2 GB on are all the same.
   */
  lemma RemoteIsPrefix(o: Order)
    requires o.bytesAtaTime > 0
    ensures AlwaysPrefix(o) <==>
              || !o.fromFile || |o.source| % 0x1_0000_0000 <= 0x8000_0000
              || forall k :: 0x8000_0000 <= k < |o.source| ==> o.source[k] == o.source[0x8000_0000]
  {
    if SeekSafe(o.fromFile, o.source) {
      forall acts, i: nat | i < |Jobs(acts)| && Ordered(Jobs(acts)[i].work, o) ensures Prefix(Jobs(acts)[i].work) {
        var u: Work := Jobs(acts)[i].work;
      }
    } else {
      var q: nat :| LIMIT <= q < |o.source| && o.source[q] != o.source[LIMIT];
      var acts := LostByte(o, q);
      assert Ordered(Jobs(acts)[0].work, o) && !Prefix(Jobs(acts)[0].work);
    }
  }

  // ---- a run that loses bytes ----

  /**
   The only job, in a run so far, is an upload of o that has sent n bytes one at a time and read on to position pos.
   */
  predicate Reached(acts: seq<Action<Order, Attempt>>, o: Order, n: nat, pos: nat) {
    var jobs := Jobs(acts);
    && |jobs| == 1 && jobs[0].complete == 0 && !jobs[0].paused && !jobs[0].work.newUpload
    && Ordered(jobs[0].work, o) && jobs[0].work.movePos == n
    && (n > 0 ==> jobs[0].work.filePos == pos)
  }

  const OPEN: Attempt := Attempt(true, NoPause, 0, 0)
  const ONE_BYTE: Attempt := Attempt(true, NoPause, 1, 1)
  const READ_AND_PAUSED: Attempt := Attempt(true, BeforeWrite, 1, 1)

  lemma OneMore(acts: seq<Action<Order, Attempt>>, a: Action<Order, Attempt>)
    ensures Jobs(acts + [a]) == Step(UPLOADER, Jobs(acts), a)
  {
    RunSnoc(UPLOADER, [], acts, a);
  }

  lemma {:induction false} SendTo(o: Order, n: nat) returns (acts: seq<Action<Order, Attempt>>)
    requires o.bytesAtaTime > 0 && o.fromFile && n <= LIMIT && n <= |o.source| % WRAP
    ensures Reached(acts, o, n, n)
  {
    if n == 0 {
      assert Jobs([]) == [];
      OneMore([], Start(o));
      OneMore([Start(o)], Visit(0, OPEN));
      acts := [Start(o)] + [Visit(0, OPEN)];
    } else {
      var before := SendTo(o, n - 1);
      OneMore(before, Visit(0, ONE_BYTE));
      acts := before + [Visit(0, ONE_BYTE)];
    }
  }

  /**
   A pause between the read and the write, then resumption: the byte read is not sent, and past the limit never will
   be.
   */
  lemma {:induction false} SkipTo(o: Order, q: nat) returns (acts: seq<Action<Order, Attempt>>)
    requires o.bytesAtaTime > 0 && o.fromFile && LIMIT < |o.source| % WRAP && LIMIT <= q < |o.source|
    ensures Reached(acts, o, LIMIT, q)
    decreases q
  {
    if q == LIMIT {
      acts := SendTo(o, LIMIT);
    } else {
      var before := SkipTo(o, q - 1);
      OneMore(before, Visit(0, READ_AND_PAUSED));
      OneMore(before + [Visit(0, READ_AND_PAUSED)], Pause(0, false));
      acts := before + [Visit(0, READ_AND_PAUSED)] + [Pause(0, false)];
    }
  }

  /** The byte after the first 2 GB can be any later byte of the file. */
  lemma LostByte(o: Order, q: nat) returns (acts: seq<Action<Order, Attempt>>)
    requires o.bytesAtaTime > 0 && o.fromFile && LIMIT < |o.source| % WRAP && LIMIT <= q < |o.source|
    ensures |Jobs(acts)| == 1
    ensures var u := Jobs(acts)[0].work;
            Ordered(u, o) && u.movePos == |u.remote| == LIMIT + 1 && u.remote[LIMIT] == o.source[q]
  {
    var before := SkipTo(o, q);
    OneMore(before, Visit(0, ONE_BYTE));
    acts := before + [Visit(0, ONE_BYTE)];
  }

  // ---- progress ----

  /** A turn that opens the remote file, or moves a whole chunk. */
  predicate Full(a: Attempt, b: nat) {
    a.connected && a.pause == NoPause && a.read >= b && a.written >= b
  }

  /** Where an undisturbed upload of this order stands after t turns, of which the first opens the remote file. */
  predicate StandsAfter(o: Order, j: Job<Work>, t: nat) {
    var u := j.work;
    && Ordered(u, o) && !j.paused && (u.fromFile ==> u.filePos == u.movePos)
    && if t == 0 then u.newUpload && j.complete == 0 && u.movePos == u.writeTimes == 0
       else !u.newUpload && AfterChunks(u.movePos, u.writeTimes, j.complete, u.fileSize, u.bytesAtaTime, t - 1)
  }

  lemma FullTurn(o: Order, j: Job<Work>, a: Attempt, t: nat)
    requires |o.source| < WRAP && StandsAfter(o, j, t) && Full(a, o.bytesAtaTime)
    ensures StandsAfter(o, Served(UPLOADER, j, a), t + 1)
  {
    var u := j.work;
    NothingMoved(u.fileSize, u.bytesAtaTime);
    if t > 0 {
      ChunkMoved(u.movePos, u.writeTimes, j.complete, u.fileSize, u.bytesAtaTime, t - 1);
    }
    Positions(u);
    GotWholeChunk(u, a);
    hide AfterChunks, Valid, Counts, Got;
  }

  lemma GotWholeChunk(u: Work, a: Attempt)
    requires a.read >= u.bytesAtaTime && a.written >= u.bytesAtaTime && |u.source| < WRAP
    requires u.fromFile ==> u.filePos == u.movePos
    ensures u.fileSize == |u.source| && ReadPos(u) == u.movePos
    ensures Got(u, a) == Min(a.written, Got(u, a)) == Min(u.bytesAtaTime, u.fileSize - u.movePos)
  {
  }

  /**
   An upload of less than 4 GB that is only served, by turns that move whole chunks, is complete exactly from its turn
   number ceil(size / chunk) + 2 on, the server then having its whole source in ceil(size / chunk) chunks. The failing
   seek does not matter to it.
   */
  lemma CompletesOnTime(jobs: seq<Job<Work>>, acts: seq<Action<Order, Attempt>>, i: nat, o: Order)
    requires o.bytesAtaTime > 0 && |o.source| < WRAP && i < |jobs| && jobs[i] == Job(0, false, NewUpload(o))
    requires OnlyServed(acts, i, (a: Attempt) => Full(a, o.bytesAtaTime))
    ensures var j, chunks := Run(UPLOADER, jobs, acts)[i], CeilDiv(|o.source|, o.bytesAtaTime);
            && (j.complete == 1 <==> TurnsOf(acts, i) >= chunks + 2)
            && (j.complete == 1 ==> j.work.writeTimes == chunks && j.work.remote == o.source)
  {
    var stands := (j: Job<Work>, t: nat) => StandsAfter(o, j, t);
    var full := (a: Attempt) => Full(a, o.bytesAtaTime);
    assert stands(jobs[i], 0);
    hide AfterChunks, Run, TurnsOf, CeilDiv;
    forall j, t: nat, a | stands(j, t) && full(a) ensures stands(Served(UPLOADER, j, a), t + 1) {
      FullTurn(o, j, a, t);
    }
    hide StandsAfter, Served, Full;
    TurnsMakeProgress(UPLOADER, stands, full, jobs, acts, i);
    CompleteUpload(o, Run(UPLOADER, jobs, acts)[i], TurnsOf(acts, i));
  }

  lemma CompleteUpload(o: Order, j: Job<Work>, t: nat)
    requires |o.source| < WRAP && o.bytesAtaTime > 0 && StandsAfter(o, j, t)
    ensures j.complete == 1 <==> t >= CeilDiv(|o.source|, o.bytesAtaTime) + 2
    ensures j.complete == 1 ==> j.work.writeTimes == CeilDiv(|o.source|, o.bytesAtaTime) && j.work.remote == o.source
  {
    var u: Work := j.work;
    if t > 0 {
      CompleteAfter(u.movePos, u.writeTimes, j.complete, u.fileSize, u.bytesAtaTime, t - 1);
    }
    hide AfterChunks, CeilDiv, SeekSafe;
    assert u.source[..|u.source|] == u.source;
  }

  // ---- the worker ----

  /** The file's part of a turn: the seek, the read, and where a pause stops it. */
  method ReadChunk(u: Upload, a: Attempt) returns (v: Upload, from: nat, count: nat, paused: bool)
    requires u.movePos <= u.fileSize <= |u.source| && ReadPos(u) <= |u.source|
    ensures from == ReadPos(u) && paused == (u.fromFile && a.pause != NoPause)
    ensures !paused ==> count == Got(u, a)
    ensures v == if !u.fromFile then u else u.(filePos := ReadPos(u) + if a.pause == BeforeRead then 0 else Got(u, a))
  {
    v, from, count, paused := u, u.movePos, Min(u.bytesAtaTime, u.fileSize - u.movePos), false;
    if u.fromFile {
      if v.movePos < LIMIT { v := v.(filePos := v.movePos); }
      from := v.filePos;
      if a.pause == BeforeRead { return v, from, count, true; }
      count := Min(Min(a.read, count), |v.source| - from);
      v := v.(filePos := from + count);
      if a.pause == BeforeWrite { paused := true; }
    }
  }

  /** A turn of an opened upload that is not at its end. */
  method SendChunk(u: Upload, a: Attempt) returns (j: Job<Upload>)
    requires Valid(u) && !u.newUpload && u.movePos != u.fileSize
    ensures u.movePos <= u.fileSize <= |u.source| && ReadPos(u) <= |u.source| && j == Turn(u, a)
  {
    Positions(u);
    hide Valid, Counts, ReadPos;
    var v, from, toWrite, paused := ReadChunk(u, a);
    if paused { return Job(0, true, v); }
    hide Got;
    toWrite := Min(a.written, toWrite);
    if toWrite == 0 { return Job(1, false, v); }
    v := v.(remote := v.remote + v.source[from..from + toWrite]);
    v := v.(movePos := v.movePos + toWrite);
    v := v.(bytesWritten := v.bytesWritten + toWrite);
    v := v.(writeTimes := v.writeTimes + 1);
    return Job(0, false, v);
  }

  /** The worker's turn for job i: the exits come in the order of the loop body. */
  method Serve(pool: Pool<Work, Order, Attempt>, i: nat, a: Attempt)
    requires i < |pool.jobs| && pool.worker == UPLOADER
    modifies pool
    ensures pool.jobs == old(pool.jobs)[i := Served(UPLOADER, old(pool.jobs)[i], a)]
  {
    var j := pool.jobs[i];
    if j.complete != 0 || j.paused { return; }
    var u: Upload := j.work;
    TurnKeepsValid(u, a);
    hide Valid, Counts, ReadPos, Got, Advanced;
    if u.newUpload {
      pool.jobs := pool.jobs[i := Job(if a.connected then 0 else 1, false, u.(newUpload := false))];
      return;
    }
    if u.movePos == u.fileSize {
      pool.jobs := pool.jobs[i := j.(complete := 1)];
      return;
    }
    var r := SendChunk(u, a);
    pool.jobs := pool.jobs[i := Job(r.complete, r.paused, r.work)];
  }

  /** One round of the endless loop: every job has exactly one turn. */
  method Round(pool: Pool<Work, Order, Attempt>, attempts: seq<Attempt>)
    requires pool.worker == UPLOADER && |attempts| == |pool.jobs|
    modifies pool
    ensures |pool.jobs| == |old(pool.jobs)|
    ensures forall k :: 0 <= k < |pool.jobs| ==> pool.jobs[k] == Served(UPLOADER, old(pool.jobs)[k], attempts[k])
  {
    hide Served;
    for i := 0 to |pool.jobs|
      invariant |pool.jobs| == |old(pool.jobs)|
      invariant forall k :: 0 <= k < |pool.jobs| ==>
                  pool.jobs[k] == if k < i then Served(UPLOADER, old(pool.jobs)[k], attempts[k]) else old(pool.jobs)[k]
    {
      Serve(pool, i, attempts[i]);
    }
  }
}
