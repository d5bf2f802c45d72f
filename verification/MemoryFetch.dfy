/**
 Downloads into memory, over FTP or HTTP: the worker allocates a block of the announced size and copies each chunk
 it receives to the end of what it has.
 */
module MemoryFetch {
  import opened Bytes
  import opened Scheduler
  import opened Utils

  datatype Download = Download(
    memSize: nat,                // a size the caller insists on, or 0
    bytesAtaTime: nat,
    fileSize: nat,
    movePos: nat,
    bytesRead: nat,
    readTimes: nat,
    newDownload: bool,
    block: seq<byte>,
    received: seq<byte>)         // everything the connection has handed over

  datatype Order = Order(memSize: uint32, bytesAtaTime: nat)

  /** One turn: whether the remote file opens and how large it says it is, and the bytes the connection has ready. */
  datatype Attempt = Attempt(connected: bool, remoteSize: uint32, pausedMeanwhile: bool, ready: seq<byte>)

  function NewDownload(o: Order): Download {
    Download(o.memSize as nat, o.bytesAtaTime, 0, 0, 0, 0, true, [], [])
  }

  /** The block with bytes copied into it at a place; they must fit. */
  function Copied(block: seq<byte>, pos: nat, bytes: seq<byte>): (r: seq<byte>)
    requires pos + |bytes| <= |block|
    ensures |r| == |block|
    ensures r[pos..pos + |bytes|] == bytes && r[..pos] == block[..pos] && r[pos + |bytes|..] == block[pos + |bytes|..]
  {
    block[..pos] + bytes + block[pos + |bytes|..]
  }

  predicate Valid(d: Download) {
    && 0 < d.bytesAtaTime
    && d.bytesRead == d.movePos == |d.received| <= d.fileSize == |d.block| < WRAP
    && d.block[..d.movePos] == d.received
    && d.memSize < WRAP
    && (d.newDownload ==> d.fileSize == 0)
    && (d.memSize != 0 && d.fileSize != 0 ==> d.fileSize == d.memSize)
    && d.readTimes <= d.movePos <= d.readTimes * d.bytesAtaTime
    && forall k :: d.movePos <= k < |d.block| ==> d.block[k] == 0
  }

  type Work = d: Download | Valid(d) witness NewDownload(Order(0, 1))

  /** One turn of the worker. */
  function Turn(d: Download, a: Attempt): Job<Download>
    requires Valid(d)
  {
    if d.newDownload then
      if !a.connected then Job(1, false, d.(newDownload := false))
      else
        Job(0, false, Opened(d, if d.memSize != 0 then d.memSize else a.remoteSize as nat))
    else if d.movePos == d.fileSize then Job(1, false, d)
    else if a.pausedMeanwhile then Job(0, true, d)
    else
      var got := Min(|a.ready|, Min(d.bytesAtaTime, d.fileSize - d.movePos));
      if got == 0 then Job(1, false, d) else Job(0, false, Extended(d, a.ready[..got]))
  }

  /** The download with its block allocated and cleared. */
  function Opened(d: Download, size: nat): Download {
    d.(fileSize := size, block := seq(size, i => 0), newDownload := false)
  }

  /** The download with one more chunk received and copied to the end of what it has. */
  function Extended(d: Download, chunk: seq<byte>): Download
    requires d.movePos + |chunk| <= |d.block|
  {
    d.(block := Copied(d.block, d.movePos, chunk),
       movePos := d.movePos + |chunk|,
       bytesRead := d.bytesRead + |chunk|,
       readTimes := d.readTimes + 1,
       received := d.received + chunk)
  }

  lemma TurnKeepsValid(d: Download, a: Attempt)
    requires Valid(d)
    ensures Valid(Turn(d, a).work)
  {
    hide Valid, Extended, Opened;
    Positions(d);
    if d.newDownload {
      OpenedIsValid(d, if d.memSize != 0 then d.memSize else a.remoteSize as nat);
    } else {
      var got := Min(|a.ready|, Min(d.bytesAtaTime, d.fileSize - d.movePos));
      if got > 0 {
        ExtendedIsValid(d, a.ready[..got]);
      }
    }
  }

  lemma Positions(d: Download)
    requires Valid(d)
    ensures 0 < d.bytesAtaTime && d.movePos <= d.fileSize == |d.block| < WRAP && d.memSize < WRAP
    ensures Valid(d.(newDownload := false))
  {
  }

  lemma OpenedIsValid(d: Download, size: nat)
    requires Valid(d) && d.newDownload && size < WRAP && (d.memSize != 0 ==> size == d.memSize)
    ensures Valid(Opened(d, size))
  {
    assert d.received == [];
  }

  lemma ExtendedIsValid(d: Download, chunk: seq<byte>)
    requires Valid(d) && d.movePos + |chunk| <= |d.block| && 0 < |chunk| <= d.bytesAtaTime
    ensures Valid(Extended(d, chunk))
  {
    CopiedPrefix(d.block, d.movePos, chunk);
    hide Copied;
    OneMoreChunk(d.readTimes, d.movePos, d.bytesAtaTime, |chunk|);
  }

  lemma CopiedPrefix(block: seq<byte>, pos: nat, bytes: seq<byte>)
    requires pos + |bytes| <= |block|
    ensures var r := Copied(block, pos, bytes);
            && r[..pos + |bytes|] == block[..pos] + bytes
            && forall k :: pos + |bytes| <= k < |block| ==> r[k] == block[k]
  {
  }

  /** How a turn ends: what completes or pauses a download, and that it then receives nothing. */
  lemma TurnEndsExactlyWhen(d: Download, a: Attempt)
    requires Valid(d)
    ensures var j, atEnd := Turn(d, a), d.movePos == d.fileSize;
            && (j.complete == 1 <==>
                  if d.newDownload then !a.connected else atEnd || (!a.pausedMeanwhile && a.ready == []))
            && (j.complete != 1 ==> j.complete == 0)
            && (j.paused <==> !d.newDownload && !atEnd && a.pausedMeanwhile)
            && (j.complete == 1 || j.paused ==> j.work == d.(newDownload := false))
            && (d.newDownload && a.connected ==>
                  |j.work.block| == (if d.memSize != 0 then d.memSize else a.remoteSize as nat) && !j.work.newDownload)
  {
    Positions(d);
    hide Valid;
  }

  /** A chunk size of zero is refused, and nothing else. A new download has received nothing. */
  function Accept(o: Order): (r: Option<Work>)
    ensures r.None? <==> o.bytesAtaTime == 0
    ensures r.Some? ==>
              && r.value.newDownload && r.value.movePos == 0 && r.value.received == []
              && r.value.memSize == o.memSize as nat && r.value.bytesAtaTime == o.bytesAtaTime
  {
    if o.bytesAtaTime == 0 then None else Some(NewDownload(o))
  }

  function WorkTurn(d: Work, a: Attempt): Job<Work> {
    TurnKeepsValid(d, a);
    var r := Turn(d, a);
    Job(r.complete, r.paused, r.work)
  }

  const FETCHER: Worker<Work, Order, Attempt> := Worker(Accept, WorkTurn)

  function Jobs(acts: seq<Action<Order, Attempt>>): seq<Job<Work>> {
    Run(FETCHER, [], acts)
  }

  /**
   In every run, each job's block holds what its connection delivered, in order, then zeros; and the next chunk still
   fits.
   */
  lemma BlockHoldsStream(acts: seq<Action<Order, Attempt>>, i: nat, ready: seq<byte>)
    requires i < |Jobs(acts)|
    ensures var d := Jobs(acts)[i].work;
            && |d.block| == d.fileSize
            && d.movePos + Min(|ready|, Min(d.bytesAtaTime, d.fileSize - d.movePos)) <= |d.block|
            && d.block == d.received + seq(|d.block| - d.movePos, k => 0)
            && d.bytesRead == |d.received| && d.readTimes <= d.bytesRead <= d.readTimes * d.bytesAtaTime
            && (d.memSize != 0 && |d.block| != 0 ==> |d.block| == d.memSize)
  {
    var d: Work := Jobs(acts)[i].work;
    assert d.block == d.block[..d.movePos] + d.block[d.movePos..];
  }

  /** The block is what the connection delivered, and nothing else, exactly when the count shown is the size. */
  lemma FullCountMeansWholeBlock(acts: seq<Action<Order, Attempt>>, i: nat)
    requires i < |Jobs(acts)|
    ensures var d := Jobs(acts)[i].work; d.bytesRead == d.fileSize <==> d.block == d.received
  {
    var d: Work := Jobs(acts)[i].work;
    assert d.block[..|d.block|] == d.block;
  }

  // ---- progress ----

  /** A turn that opens the remote file with this size, or finds a whole chunk ready. */
  predicate Full(a: Attempt, o: Order, size: nat) {
    && a.connected && !a.pausedMeanwhile && |a.ready| >= o.bytesAtaTime
    && size == if o.memSize != 0 then o.memSize as nat else a.remoteSize as nat
  }

  /**
   Where an undisturbed download of this order and size stands after t turns, of which the first allocates the block.
   */
  predicate StandsAfter(o: Order, size: nat, j: Job<Work>, t: nat) {
    var d := j.work;
    && d.memSize == o.memSize as nat && d.bytesAtaTime == o.bytesAtaTime && !j.paused
    && if t == 0 then d.newDownload && j.complete == 0 && d.movePos == d.readTimes == 0
       else
         && !d.newDownload && d.fileSize == size
         && AfterChunks(d.movePos, d.readTimes, j.complete, size, d.bytesAtaTime, t - 1)
  }

  lemma FullTurn(o: Order, size: nat, j: Job<Work>, a: Attempt, t: nat)
    requires StandsAfter(o, size, j, t) && Full(a, o, size)
    ensures StandsAfter(o, size, Served(FETCHER, j, a), t + 1)
  {
    var d := j.work;
    NothingMoved(size, d.bytesAtaTime);
    if t > 0 {
      ChunkMoved(d.movePos, d.readTimes, j.complete, size, d.bytesAtaTime, t - 1);
    }
    Positions(d);
    hide AfterChunks, Valid, Copied;
  }

  /**
   A download that is only served, by turns that find whole chunks ready, is complete exactly from its turn number
   ceil(size / chunk) + 2 on. Its block then holds size bytes, all of them received, in ceil(size / chunk) chunks.
   */
  lemma CompletesOnTime(jobs: seq<Job<Work>>, acts: seq<Action<Order, Attempt>>, i: nat, o: Order, size: nat)
    requires o.bytesAtaTime > 0 && i < |jobs| && jobs[i] == Job(0, false, NewDownload(o))
    requires OnlyServed(acts, i, (a: Attempt) => Full(a, o, size))
    ensures var j, chunks := Run(FETCHER, jobs, acts)[i], CeilDiv(size, o.bytesAtaTime);
            && (j.complete == 1 <==> TurnsOf(acts, i) >= chunks + 2)
            && (j.complete == 1 ==>
                  j.work.readTimes == chunks && |j.work.block| == size && j.work.block == j.work.received)
  {
    var stands := (j: Job<Work>, t: nat) => StandsAfter(o, size, j, t);
    var full := (a: Attempt) => Full(a, o, size);
    assert stands(jobs[i], 0);
    hide AfterChunks, Run, TurnsOf, CeilDiv;
    forall j, t: nat, a | stands(j, t) && full(a) ensures stands(Served(FETCHER, j, a), t + 1) {
      FullTurn(o, size, j, a, t);
    }
    hide StandsAfter, Served, Full;
    TurnsMakeProgress(FETCHER, stands, full, jobs, acts, i);
    CompleteDownload(o, size, Run(FETCHER, jobs, acts)[i], TurnsOf(acts, i));
  }

  lemma CompleteDownload(o: Order, size: nat, j: Job<Work>, t: nat)
    requires o.bytesAtaTime > 0 && StandsAfter(o, size, j, t)
    ensures j.complete == 1 <==> t >= CeilDiv(size, o.bytesAtaTime) + 2
    ensures j.complete == 1 ==>
              j.work.readTimes == CeilDiv(size, o.bytesAtaTime) && |j.work.block| == size
                  && j.work.block == j.work.received
  {
    var d: Work := j.work;
    if t > 0 {
      CompleteAfter(d.movePos, d.readTimes, j.complete, size, d.bytesAtaTime, t - 1);
    }
    hide AfterChunks, CeilDiv;
    assert d.block[..|d.block|] == d.block;
  }

  // ---- the worker ----

  /** A job as the worker holds it, with its block in memory. */
  class Fetch {
    var memSize: nat
    var bytesAtaTime: nat
    var fileSize: nat
    var movePos: nat
    var bytesRead: nat
    var readTimes: nat
    var complete: nat
    var paused: bool
    var newDownload: bool
    var block: array<byte>
    ghost var received: seq<byte>

    ghost function View(): Job<Download>
      reads this, block
    {
      Job(complete, paused,
          Download(memSize, bytesAtaTime, fileSize, movePos, bytesRead, readTimes, newDownload, block[..], received))
    }

    constructor (memSize: uint32, bytesAtaTime: nat)
      requires bytesAtaTime > 0
      ensures View() == Job(0, false, NewDownload(Order(memSize, bytesAtaTime))) && Valid(View().work) && fresh(block)
    {
      this.memSize, this.bytesAtaTime := memSize as nat, bytesAtaTime;
      fileSize, movePos, bytesRead, readTimes, complete := 0, 0, 0, 0, 0;
      paused, newDownload, received := false, true, [];
      block := new byte[0];
    }

    /** The connection hands over what it has ready, at most as much as was asked for. */
    static method ReadFile(ready: seq<byte>, asked: nat) returns (chunk: array<byte>, count: nat)
      ensures fresh(chunk) && chunk.Length == asked && count == Min(|ready|, asked)
      ensures chunk[..count] == ready[..count]
    {
      chunk := new byte[asked];
      count := Min(|ready|, asked);
      for k := 0 to count
        invariant chunk[..k] == ready[..k]
      {
        chunk[k] := ready[k];
      }
    }

    /** Copies a chunk into the block; every store is inside it. */
    method CopyMemory(chunk: array<byte>, count: nat)
      requires chunk != block && count <= chunk.Length && movePos + count <= block.Length
      modifies block
      ensures block[..] == Copied(old(block[..]), movePos, chunk[..count])
    {
      for k := 0 to count
        invariant block[..movePos] == old(block[..movePos])
        invariant block[movePos..movePos + k] == chunk[..k]
        invariant block[movePos + k..] == old(block[movePos + k..])
      {
        block[movePos + k] := chunk[k];
      }
    }

    /** The first turn: opens the remote file and allocates the block, cleared. */
    method Open(a: Attempt)
      requires Valid(View().work) && newDownload && complete == 0 && !paused
      modifies this
      ensures View() == Turn(old(View()).work, a)
      ensures block != old(block) ==> fresh(block)
    {
      if !a.connected {
        complete, newDownload := 1, false;
        return;
      }
      fileSize := a.remoteSize as nat;
      if memSize != 0 { fileSize := memSize; }
      block := new byte[fileSize](i => 0);
      newDownload := false;
      assert block[..] == seq(fileSize, i => 0);
    }

    /** A turn that moves a chunk, if there is one. */
    method Transfer(a: Attempt)
      requires Valid(View().work) && !newDownload && complete == 0 && !paused
      requires movePos != fileSize && !a.pausedMeanwhile
      modifies this, block
      ensures View() == Turn(old(View()).work, a)
      ensures block == old(block)
    {
      hide Copied;
      var chunk, count := ReadFile(a.ready, Min(bytesAtaTime, fileSize - movePos));
      if count == 0 {
        complete := 1;
        return;
      }
      CopyMemory(chunk, count);
      received := received + chunk[..count];
      movePos := movePos + count;
      bytesRead := bytesRead + count;
      readTimes := readTimes + 1;
    }

    method Serve(a: Attempt)
      requires Valid(View().work)
      modifies this, block
      ensures Valid(View().work) && View() == Served(FETCHER, old(View()), a)
      ensures block != old(block) ==> fresh(block)
    {
      TurnKeepsValid(View().work, a);
      hide Valid;
      if complete != 0 || paused { return; }
      if newDownload {
        Open(a);
        return;
      }
      if movePos == fileSize {
        complete := 1;
        return;
      }
      if a.pausedMeanwhile {
        paused := true;
        return;
      }
      Transfer(a);
    }
  }
}
