/** One job's output log (cmd/server/internal/storage/storage.go): every
    block the running command produces is delivered to the attached
    listeners, appended to an in-memory buffer, and the buffer is written
    out as a numbered chunk file `<id>_<n>.log` once it reaches the size
    threshold. A listener attaching later is first sent every chunk, then
    the buffer.

    The job's mutex is modelled by making each operation one atomic step.
    A listener channel is the sequence of blocks sent on it. The working
    directory is a map from file name to contents, and whether a write
    succeeds is the parameter `WriteResult`. */
module Storage {
  import opened Wrappers
  import opened Seqs
  import Decimal

  newtype byte = x: int | 0 <= x < 256

  type Bytes = seq<byte>

  /** What a user may ask to do with a job. */
  datatype Operation = Run | Status | Output | Stop

  /** A Go `uint`; the first four values name the statuses. */
  newtype JobStatus = x: int | 0 <= x < 0x1_0000_0000_0000_0000

  const Running: JobStatus := 0
  const Completed: JobStatus := 1
  const Errored: JobStatus := 2
  const Stopped: JobStatus := 3

  /** The buffer size at which the log is written out: 1 MiB. */
  const LogFileSize: nat := 1024 * 1024

  /** The size of the blocks a replay reads and sends. */
  const ReadBlockSize: nat := 1024

  /** Chunks already written, and the output not yet written. */
  datatype CmdLog = CmdLog(nFiles: nat, buffer: Bytes)

  /** A listener channel: the blocks sent on it so far. */
  datatype Listener = Listener(received: seq<Bytes>)

  /** The process handle `Cmd` is not part of this model. */
  datatype Job = Job(id: string, status: JobStatus, log: CmdLog, listeners: seq<Listener>)

  /** The working directory: file name to contents. */
  type Disk = map<string, Bytes>

  /** `id` is the fresh identifier `uuid.New` would return, in its text form. */
  function NewJob(id: string): (j: Job)
    ensures j.id == id && j.status == Running
    ensures j.log.nFiles == 0 && |j.log.buffer| == 0 && |j.listeners| == 0
  {
    Job(id, Running, CmdLog(0, []), [])
  }

  /** `JobStatus.String` */
  function String(s: JobStatus): (name: string)
    ensures name == "Undefined" <==> s > Stopped
    ensures s == Running ==> name == "Running"
    ensures s == Completed ==> name == "Completed"
    ensures s == Errored ==> name == "Errored"
    ensures s == Stopped ==> name == "Stopped"
  {
    if s == Running then "Running"
    else if s == Completed then "Completed"
    else if s == Errored then "Errored"
    else if s == Stopped then "Stopped"
    else "Undefined"
  }

  /** The four statuses have four different names, none of them "Undefined". */
  lemma StringDistinguishesStatuses(s: JobStatus, t: JobStatus)
    requires s <= Stopped && t <= Stopped && s != t
    ensures String(s) != String(t)
    ensures String(s) != "Undefined"
  {
  }

  /** `fmt.Sprintf("%s_%d.log", id, i)` */
  function ChunkFileName(id: string, i: nat): (name: string)
    ensures |name| == |id| + 1 + |Decimal.FromNat(i)| + 4
    ensures name[..|id|] == id && name[|id|] == '_'
    ensures name[|name| - 4..] == ".log"
    ensures name[|id| + 1..|name| - 4] == Decimal.FromNat(i)
  {
    id + "_" + Decimal.FromNat(i) + ".log"
  }

  /** Different chunk indexes of one job name different files. */
  lemma ChunkFileNameInjective(id: string, i: nat, k: nat)
    requires ChunkFileName(id, i) == ChunkFileName(id, k)
    ensures i == k
  {
    var a := ChunkFileName(id, i);
    var di := Decimal.FromNat(i);
    var dk := Decimal.FromNat(k);
    assert a[|id| + 1..|a| - 4] == di;
    assert ChunkFileName(id, k)[|id| + 1..|a| - 4] == dk;
    Decimal.FromNatInjective(i, k);
  }

  function FileContents(disk: Disk, name: string): Bytes {
    if name in disk then disk[name] else []
  }

  /** The contents of chunk files 0 .. n-1, in order. */
  function Chunks(disk: Disk, id: string, n: nat): Bytes
    decreases n
  {
    if n == 0 then [] else Chunks(disk, id, n - 1) + FileContents(disk, ChunkFileName(id, n - 1))
  }

  predicate HasChunks(disk: Disk, id: string, n: nat) {
    forall i :: 0 <= i < n ==> ChunkFileName(id, i) in disk
  }

  /** The log invariant: the chunks written so far followed by the buffer
      are the whole output `history`, and every listener has been sent
      exactly that stream. */
  predicate Valid(j: Job, disk: Disk, history: Bytes) {
    && HasChunks(disk, j.id, j.log.nFiles)
    && Chunks(disk, j.id, j.log.nFiles) + j.log.buffer == history
    && forall k :: 0 <= k < |j.listeners| ==> Concat(j.listeners[k].received) == history
  }

  /** `CmdLog.appendBytes` */
  function AppendBytes(log: CmdLog, out: Bytes): (log': CmdLog)
    ensures log'.nFiles == log.nFiles
    ensures |log'.buffer| == |log.buffer| + |out|
    ensures log'.buffer[..|log.buffer|] == log.buffer && log'.buffer[|log.buffer|..] == out
  {
    log.(buffer := log.buffer + out)
  }

  /** Blocks of at most ReadBlockSize bytes, as a reader with a 1024-byte
      buffer returns them. */
  function ReadLogBuffer(log: Bytes): (blocks: seq<Bytes>)
    ensures Concat(blocks) == log
    ensures forall k :: 0 <= k < |blocks| ==> 0 < |blocks[k]| <= ReadBlockSize
    ensures forall k :: 0 <= k < |blocks| - 1 ==> |blocks[k]| == ReadBlockSize
    decreases |log|
  {
    if |log| == 0 then []
    else if |log| <= ReadBlockSize then
      assert Concat([log]) == log + Concat([]);
      [log]
    else
      var rest := ReadLogBuffer(log[ReadBlockSize..]);
      assert Concat([log[..ReadBlockSize]] + rest) == log[..ReadBlockSize] + Concat(rest) by {
        assert ([log[..ReadBlockSize]] + rest)[1..] == rest;
      }
      assert log[..ReadBlockSize] + log[ReadBlockSize..] == log;
      [log[..ReadBlockSize]] + rest
  }

  /** `readFile`: a missing file is the read error; an existing one is
      sent in blocks. */
  function ReadFile(disk: Disk, name: string): (r: Option<seq<Bytes>>)
    ensures r.Some? <==> name in disk
    ensures r.Some? ==> Concat(r.value) == disk[name]
    ensures r.Some? ==> forall k :: 0 <= k < |r.value| ==> 0 < |r.value[k]| <= ReadBlockSize
  {
    if name in disk then Some(ReadLogBuffer(disk[name])) else None
  }

  /** How a flush ends: the file could not be opened, so nothing was
      created or written; or it was opened and the write of the buffer ended
      fully, or with an error after `written` bytes reached the file. */
  datatype WriteResult = OpenFailed | WriteOk | WriteFailed(written: nat)

  /** How the chunk file is opened for writing. */
  datatype OpenMode =
    | Append    // O_APPEND|O_CREATE, as persistLog opens it
    | Truncate  // O_TRUNC|O_CREATE, replacing what an earlier failed attempt left

  datatype Persisted = Persisted(disk: Disk, ok: bool)

  /** The part of `buffer` that reaches the file. */
  function Written(buffer: Bytes, w: WriteResult): (written: Bytes)
    ensures written <= buffer
    ensures w.WriteOk? ==> written == buffer
    ensures w.OpenFailed? ==> written == []
    ensures w.WriteFailed? ==> |written| == if w.written < |buffer| then w.written else |buffer|
  {
    match w
    case OpenFailed => []
    case WriteOk => buffer
    case WriteFailed(n) => if n < |buffer| then buffer[..n] else buffer
  }

  /** What a file held before a write, as far as the open mode keeps it. */
  function Kept(mode: OpenMode, disk: Disk, name: string): Bytes {
    if mode == Append then FileContents(disk, name) else []
  }

  /** `persistLog`: write the buffer to the file of chunk `nFiles`. A
      failed open leaves the disk as it was. */
  function PersistLog(mode: OpenMode, j: Job, disk: Disk, w: WriteResult): (p: Persisted)
    ensures p.ok <==> w.WriteOk?
    ensures w.OpenFailed? ==> p.disk == disk
    ensures !w.OpenFailed? ==>
              var name := ChunkFileName(j.id, j.log.nFiles);
              name in p.disk && p.disk[name] == Kept(mode, disk, name) + Written(j.log.buffer, w)
    ensures forall name :: name != ChunkFileName(j.id, j.log.nFiles) ==>
              (name in p.disk <==> name in disk) && (name in disk ==> p.disk[name] == disk[name])
  {
    if w.OpenFailed? then Persisted(disk, false)
    else
      var name := ChunkFileName(j.id, j.log.nFiles);
      Persisted(disk[name := Kept(mode, disk, name) + Written(j.log.buffer, w)], w.WriteOk?)
  }

  datatype Processed = Processed(job: Job, disk: Disk, ok: bool)

  /** `ProcessOutput` with the chunk file opened in `mode`: send `out` to
      every listener, append it to the buffer, and write the buffer out as
      the next chunk once it holds `threshold` bytes or more. */
  function ProcessOutputWith(mode: OpenMode, j: Job, disk: Disk, out: Bytes, threshold: nat, w: WriteResult): (r: Processed)
    requires 0 < threshold
    ensures r.job.id == j.id
    // every listener is sent `out`, and the set of listeners is unchanged
    ensures |r.job.listeners| == |j.listeners|
    ensures forall k :: 0 <= k < |j.listeners| ==> r.job.listeners[k].received == j.listeners[k].received + [out]
    // the error path: only a failed open or write fails, and it marks the job Errored
    // with nothing dropped from the buffer
    ensures !r.ok <==> |j.log.buffer| + |out| >= threshold && !w.WriteOk?
    ensures !r.ok ==> r.job.status == Errored && r.job.log == AppendBytes(j.log, out)
    ensures r.ok ==> r.job.status == j.status
    // after success the buffer is below the threshold
    ensures r.ok ==> |r.job.log.buffer| < threshold
    // one more chunk exactly when the buffer reached the threshold and was written
    ensures r.job.log.nFiles == j.log.nFiles + 1 <==> r.ok && |j.log.buffer| + |out| >= threshold
    ensures r.job.log.nFiles == j.log.nFiles || r.job.log.nFiles == j.log.nFiles + 1
    ensures r.job.log.nFiles == j.log.nFiles ==> r.job.log.buffer == j.log.buffer + out
    ensures r.job.log.nFiles == j.log.nFiles + 1 ==> r.job.log.buffer == []
    ensures r.job.log.nFiles == j.log.nFiles + 1 ==> ChunkFileName(j.id, j.log.nFiles) in r.disk
    // reaching the threshold writes the buffer to chunk nFiles, unless the
    // file cannot be opened, in which case the disk is not touched
    ensures |j.log.buffer| + |out| >= threshold && w.OpenFailed? ==> r.disk == disk
    ensures |j.log.buffer| + |out| >= threshold && !w.OpenFailed? ==>
              var name := ChunkFileName(j.id, j.log.nFiles);
              name in r.disk && r.disk[name] == Kept(mode, disk, name) + Written(j.log.buffer + out, w)
    ensures r.job.log.nFiles == j.log.nFiles + 1 && mode == Truncate ==>
              r.disk[ChunkFileName(j.id, j.log.nFiles)] == j.log.buffer + out
    // below the threshold the disk is not touched; above it only chunk nFiles is
    ensures |j.log.buffer| + |out| < threshold ==> r.disk == disk
    ensures forall name :: name != ChunkFileName(j.id, j.log.nFiles) ==>
              (name in r.disk <==> name in disk) && (name in disk ==> r.disk[name] == disk[name])
  {
    var listeners := seq(|j.listeners|, k requires 0 <= k < |j.listeners| =>
                           Listener(j.listeners[k].received + [out]));
    var appended := j.(listeners := listeners, log := AppendBytes(j.log, out));
    if |appended.log.buffer| >= threshold then
      var p := PersistLog(mode, appended, disk, w);
      if !p.ok then Processed(appended.(status := Errored), p.disk, false)
      else Processed(appended.(log := CmdLog(appended.log.nFiles + 1, [])), p.disk, true)
    else Processed(appended, disk, true)
  }

  /** `ProcessOutput`, with each chunk file written from scratch. */
  function ProcessOutput(j: Job, disk: Disk, out: Bytes, threshold: nat, w: WriteResult): (r: Processed)
    requires 0 < threshold
  {
    ProcessOutputWith(Truncate, j, disk, out, threshold, w)
  }

  /** `ProcessOutput` with the chunk file opened for appending, as
      `persistLog` opens it. */
  function ProcessOutputAsWritten(j: Job, disk: Disk, out: Bytes, threshold: nat, w: WriteResult): (r: Processed)
    requires 0 < threshold
  {
    ProcessOutputWith(Append, j, disk, out, threshold, w)
  }

  /** Chunks below n read the same from two disks that agree on their files. */
  lemma {:induction false} ChunksFrame(disk: Disk, disk': Disk, id: string, n: nat)
    requires forall i :: 0 <= i < n ==>
               (ChunkFileName(id, i) in disk <==> ChunkFileName(id, i) in disk') &&
               (ChunkFileName(id, i) in disk ==> disk'[ChunkFileName(id, i)] == disk[ChunkFileName(id, i)])
    ensures Chunks(disk', id, n) == Chunks(disk, id, n)
    ensures HasChunks(disk', id, n) == HasChunks(disk, id, n)
    decreases n
  {
    if n > 0 {
      ChunksFrame(disk, disk', id, n - 1);
    }
  }

  /** The chunks below n are untouched by a write to chunk n. */
  lemma ChunksUnchangedByNextWrite(disk: Disk, disk': Disk, id: string, n: nat)
    requires forall name :: name != ChunkFileName(id, n) ==>
               (name in disk' <==> name in disk) && (name in disk ==> disk'[name] == disk[name])
    ensures Chunks(disk', id, n) == Chunks(disk, id, n)
    ensures HasChunks(disk', id, n) == HasChunks(disk, id, n)
  {
    forall i | 0 <= i < n
      ensures ChunkFileName(id, i) != ChunkFileName(id, n)
    {
      if ChunkFileName(id, i) == ChunkFileName(id, n) {
        ChunkFileNameInjective(id, i, n);
      }
    }
    ChunksFrame(disk, disk', id, n);
  }

  /** A new job satisfies the log invariant with nothing produced yet. */
  lemma NewJobValid(id: string, disk: Disk)
    ensures Valid(NewJob(id), disk, [])
  {
  }

  /** Sending one more block to every listener keeps them all in step
      with the log. */
  lemma ListenersFollowOutput(j: Job, r: Job, history: Bytes, out: Bytes)
    requires forall k :: 0 <= k < |j.listeners| ==> Concat(j.listeners[k].received) == history
    requires |r.listeners| == |j.listeners|
    requires forall k :: 0 <= k < |j.listeners| ==> r.listeners[k].received == j.listeners[k].received + [out]
    ensures forall k :: 0 <= k < |r.listeners| ==> Concat(r.listeners[k].received) == history + out
  {
    forall k | 0 <= k < |r.listeners|
      ensures Concat(r.listeners[k].received) == history + out
    {
      ConcatSnoc(j.listeners[k].received, out);
    }
  }

  /** Writing chunk n after chunks 0 .. n-1 extends the log by its contents. */
  lemma ChunksExtendedByNextWrite(disk: Disk, disk': Disk, id: string, n: nat)
    requires forall name :: name != ChunkFileName(id, n) ==>
               (name in disk' <==> name in disk) && (name in disk ==> disk'[name] == disk[name])
    requires HasChunks(disk, id, n) && ChunkFileName(id, n) in disk'
    ensures HasChunks(disk', id, n + 1)
    ensures Chunks(disk', id, n + 1) == Chunks(disk, id, n) + disk'[ChunkFileName(id, n)]
  {
    ChunksUnchangedByNextWrite(disk, disk', id, n);
  }

  /** The chunk and buffer half of the invariant when a chunk is written. */
  lemma FlushKeepsChunks(j: Job, disk: Disk, r: Processed)
    requires HasChunks(disk, j.id, j.log.nFiles)
    requires forall name :: name != ChunkFileName(j.id, j.log.nFiles) ==>
               (name in r.disk <==> name in disk) && (name in disk ==> r.disk[name] == disk[name])
    requires r.job.id == j.id && r.job.log.nFiles == j.log.nFiles + 1 && r.job.log.buffer == []
    requires ChunkFileName(j.id, j.log.nFiles) in r.disk
    ensures HasChunks(r.disk, j.id, r.job.log.nFiles)
    ensures Chunks(r.disk, j.id, r.job.log.nFiles)
              == Chunks(disk, j.id, j.log.nFiles) + r.disk[ChunkFileName(j.id, j.log.nFiles)]
  {
    var n := j.log.nFiles;
    ChunksExtendedByNextWrite(disk, r.disk, j.id, n);
    ChunksUnchangedByNextWrite(disk, r.disk, j.id, n);
  }

  /** The chunk and buffer half of the invariant when no chunk is written. */
  lemma NoFlushKeepsChunks(j: Job, disk: Disk, r: Processed)
    requires HasChunks(disk, j.id, j.log.nFiles)
    requires forall name :: name != ChunkFileName(j.id, j.log.nFiles) ==>
               (name in r.disk <==> name in disk) && (name in disk ==> r.disk[name] == disk[name])
    requires r.job.id == j.id && r.job.log.nFiles == j.log.nFiles
    ensures HasChunks(r.disk, j.id, r.job.log.nFiles)
    ensures Chunks(r.disk, j.id, r.job.log.nFiles) == Chunks(disk, j.id, j.log.nFiles)
  {
    ChunksUnchangedByNextWrite(disk, r.disk, j.id, j.log.nFiles);
  }

  /** The chunk and buffer half of the invariant across one ProcessOutput. */
  lemma ProcessOutputKeepsChunks(j: Job, disk: Disk, history: Bytes, out: Bytes, threshold: nat, w: WriteResult)
    requires 0 < threshold
    requires HasChunks(disk, j.id, j.log.nFiles)
    requires Chunks(disk, j.id, j.log.nFiles) + j.log.buffer == history
    ensures var r := ProcessOutput(j, disk, out, threshold, w);
            && HasChunks(r.disk, j.id, r.job.log.nFiles)
            && Chunks(r.disk, j.id, r.job.log.nFiles) + r.job.log.buffer == history + out
  {
    var r := ProcessOutput(j, disk, out, threshold, w);
    ResultKeepsChunks(j, disk, history, out, r);
  }

  /** The same, for any result that changes the disk and log the way
      ProcessOutput does. */
  lemma ResultKeepsChunks(j: Job, disk: Disk, history: Bytes, out: Bytes, r: Processed)
    requires HasChunks(disk, j.id, j.log.nFiles)
    requires Chunks(disk, j.id, j.log.nFiles) + j.log.buffer == history
    requires r.job.id == j.id
    requires r.job.log.nFiles == j.log.nFiles || r.job.log.nFiles == j.log.nFiles + 1
    requires r.job.log.nFiles == j.log.nFiles ==> r.job.log.buffer == j.log.buffer + out
    requires r.job.log.nFiles == j.log.nFiles + 1 ==>
               && r.job.log.buffer == []
               && ChunkFileName(j.id, j.log.nFiles) in r.disk
               && r.disk[ChunkFileName(j.id, j.log.nFiles)] == j.log.buffer + out
    requires forall name :: name != ChunkFileName(j.id, j.log.nFiles) ==>
               (name in r.disk <==> name in disk) && (name in disk ==> r.disk[name] == disk[name])
    ensures HasChunks(r.disk, j.id, r.job.log.nFiles)
    ensures Chunks(r.disk, j.id, r.job.log.nFiles) + r.job.log.buffer == history + out
  {
    var c := Chunks(disk, j.id, j.log.nFiles);
    if r.job.log.nFiles == j.log.nFiles + 1 {
      FlushKeepsChunks(j, disk, r);
      FlushedBuffer(c, j.log.buffer, out, r.disk[ChunkFileName(j.id, j.log.nFiles)], r.job.log.buffer);
    } else {
      NoFlushKeepsChunks(j, disk, r);
      AppendAssoc(c, j.log.buffer, out);
    }
  }

  /** Writing the whole buffer as a chunk and emptying it loses nothing. */
  lemma FlushedBuffer(c: Bytes, buffer: Bytes, out: Bytes, chunk: Bytes, rest: Bytes)
    requires chunk == buffer + out && rest == []
    ensures c + chunk + rest == c + buffer + out
  {
    AppendAssoc(c, buffer, out);
  }

  /** ProcessOutput keeps the log invariant, whether or not the write
      succeeds: chunks and buffer together still hold every byte received,
      in order, and every listener has been sent the same bytes. */
  lemma ProcessOutputPreservesLog(j: Job, disk: Disk, history: Bytes, out: Bytes, threshold: nat, w: WriteResult)
    requires 0 < threshold
    requires Valid(j, disk, history)
    ensures Valid(ProcessOutput(j, disk, out, threshold, w).job, ProcessOutput(j, disk, out, threshold, w).disk, history + out)
  {
    var r := ProcessOutput(j, disk, out, threshold, w);
    ProcessOutputKeepsChunks(j, disk, history, out, threshold, w);
    ListenersFollowOutput(j.(log := j.log), r.job, history, out);
  }

  /** One read of the command's output, and how the flush it may trigger
      ends. */
  datatype PumpStep = PumpStep(out: Bytes, write: WriteResult)

  /** Everything the pump read, in order. */
  function Pumped(steps: seq<PumpStep>): Bytes
    decreases |steps|
  {
    if steps == [] then [] else steps[0].out + Pumped(steps[1..])
  }

  /** The output pump calling ProcessOutput, with chunk files opened in
      `mode`, once per read; like the pump, it carries on after a failed
      write. `ok` records whether every call succeeded. */
  function ProcessAllWith(mode: OpenMode, j: Job, disk: Disk, steps: seq<PumpStep>, threshold: nat): (r: Processed)
    requires 0 < threshold
    ensures r.job.id == j.id && |r.job.listeners| == |j.listeners|
    decreases |steps|
  {
    if steps == [] then Processed(j, disk, true)
    else
      var first := ProcessOutputWith(mode, j, disk, steps[0].out, threshold, steps[0].write);
      var rest := ProcessAllWith(mode, first.job, first.disk, steps[1..], threshold);
      rest.(ok := first.ok && rest.ok)
  }

  /** The pump over the truncating ProcessOutput. */
  function ProcessAll(j: Job, disk: Disk, steps: seq<PumpStep>, threshold: nat): (r: Processed)
    requires 0 < threshold
  {
    ProcessAllWith(Truncate, j, disk, steps, threshold)
  }

  /** After any sequence of reads, chunks and buffer hold exactly what was
      read and every listener attached beforehand has been sent all of it. */
  lemma {:induction false} ProcessAllPreservesLog(j: Job, disk: Disk, history: Bytes, steps: seq<PumpStep>, threshold: nat)
    requires 0 < threshold
    requires Valid(j, disk, history)
    ensures Valid(ProcessAll(j, disk, steps, threshold).job, ProcessAll(j, disk, steps, threshold).disk,
                  history + Pumped(steps))
    decreases |steps|
  {
    if steps == [] {
      assert history + Pumped(steps) == history;
    } else {
      var first := ProcessOutput(j, disk, steps[0].out, threshold, steps[0].write);
      var rest := ProcessAll(first.job, first.disk, steps[1..], threshold);
      assert ProcessAll(j, disk, steps, threshold).job == rest.job;
      assert ProcessAll(j, disk, steps, threshold).disk == rest.disk;
      ProcessOutputPreservesLog(j, disk, history, steps[0].out, threshold, steps[0].write);
      ProcessAllPreservesLog(first.job, first.disk, history + steps[0].out, steps[1..], threshold);
      AppendAssoc(history, steps[0].out, Pumped(steps[1..]));
    }
  }

  /** A listener attached to a fresh job is eventually sent exactly the
      concatenation of everything the command produced. */
  lemma ListenerFromStartSeesEverything(id: string, disk: Disk, steps: seq<PumpStep>, threshold: nat)
    requires 0 < threshold
    ensures var r := ProcessAll(NewJob(id).(listeners := [Listener([])]), disk, steps, threshold);
            |r.job.listeners| == 1 && Concat(r.job.listeners[0].received) == Pumped(steps)
  {
    var j := NewJob(id).(listeners := [Listener([])]);
    assert Valid(j, disk, []);
    ProcessAllPreservesLog(j, disk, [], steps, threshold);
    assert [] + Pumped(steps) == Pumped(steps);
  }

  /** `RegisterListener`, run without interleaving: send chunks 0 ..
      nFiles-1, then the buffer, and add the listener. A chunk that cannot
      be read ends the call with the listener not added. */
  method RegisterListener(j: Job, disk: Disk, ghost history: Bytes) returns (j': Job, sent: seq<Bytes>, ok: bool)
    ensures ok <==> HasChunks(disk, j.id, j.log.nFiles)
    ensures ok ==> j' == j.(listeners := j.listeners + [Listener(sent)])
    ensures ok ==> Concat(sent) == Chunks(disk, j.id, j.log.nFiles) + j.log.buffer
    ensures !ok ==> j' == j
    ensures !ok ==> exists i :: 0 <= i < j.log.nFiles && HasChunks(disk, j.id, i) &&
                                ChunkFileName(j.id, i) !in disk && Concat(sent) == Chunks(disk, j.id, i)
    ensures forall k :: 0 <= k < |sent| ==> 0 < |sent[k]| <= ReadBlockSize
    // on a job that keeps the invariant, the new listener has been sent the
    // whole log so far, and the invariant still holds
    ensures Valid(j, disk, history) ==> ok && Concat(sent) == history && Valid(j', disk, history)
  {
    sent := [];
    var i := 0;
    while i < j.log.nFiles
      invariant 0 <= i <= j.log.nFiles
      invariant HasChunks(disk, j.id, i)
      invariant Concat(sent) == Chunks(disk, j.id, i)
      invariant forall k :: 0 <= k < |sent| ==> 0 < |sent[k]| <= ReadBlockSize
      decreases j.log.nFiles - i
    {
      var name := ChunkFileName(j.id, i);
      var blocks := ReadFile(disk, name);
      if blocks.None? {
        return j, sent, false;
      }
      ConcatAppend(sent, blocks.value);
      sent := sent + blocks.value;
      i := i + 1;
    }
    var tail := ReadLogBuffer(j.log.buffer);
    ConcatAppend(sent, tail);
    sent := sent + tail;
    j' := j.(listeners := j.listeners + [Listener(sent)]);
    ok := true;
  }

  /** With a threshold of two bytes, "ab" and then "cd" each reach the
      threshold on their own and are written as chunks 0 and 1, leaving the
      buffer empty; a replay yields "abcd". */
  lemma TwoByteThresholdExample(id: string, disk: Disk)
    ensures var r1 := ProcessOutput(NewJob(id), disk, [97, 98], 2, WriteOk);
            var r2 := ProcessOutput(r1.job, r1.disk, [99, 100], 2, WriteOk);
            && r1.ok && r2.ok
            && r2.job.log == CmdLog(2, [])
            && ChunkFileName(id, 0) in r2.disk && r2.disk[ChunkFileName(id, 0)] == [97, 98]
            && ChunkFileName(id, 1) in r2.disk && r2.disk[ChunkFileName(id, 1)] == [99, 100]
            && Chunks(r2.disk, id, r2.job.log.nFiles) + r2.job.log.buffer == [97, 98, 99, 100]
  {
    var j := NewJob(id);
    var r1 := ProcessOutput(j, disk, [97, 98], 2, WriteOk);
    var r2 := ProcessOutput(r1.job, r1.disk, [99, 100], 2, WriteOk);
    assert r1.job.log == CmdLog(1, []);
    assert r2.job.log == CmdLog(2, []);
    NewJobValid(id, disk);
    ProcessOutputPreservesLog(j, disk, [], [97, 98], 2, WriteOk);
    ProcessOutputPreservesLog(r1.job, r1.disk, [] + [97, 98], [99, 100], 2, WriteOk);
    assert ChunkFileName(id, 0) != ChunkFileName(id, 1) by {
      if ChunkFileName(id, 0) == ChunkFileName(id, 1) {
        ChunkFileNameInjective(id, 0, 1);
      }
    }
  }

  /** With a threshold of three bytes, "ab" stays in the buffer and "cd"
      brings it to four bytes, which are written as one chunk. */
  lemma ThreeByteThresholdExample(id: string, disk: Disk)
    ensures var r1 := ProcessOutput(NewJob(id), disk, [97, 98], 3, WriteOk);
            var r2 := ProcessOutput(r1.job, r1.disk, [99, 100], 3, WriteOk);
            && r1.job.log == CmdLog(0, [97, 98]) && r1.disk == disk
            && r2.job.log == CmdLog(1, [])
            && ChunkFileName(id, 0) in r2.disk && r2.disk[ChunkFileName(id, 0)] == [97, 98, 99, 100]
  {
  }

  /** As written, a write that fails part-way leaves the first bytes in
      chunk file 0; the next call, which the pump makes regardless, appends
      the whole buffer after them, so chunk 0 starts "aab" and a replay
      repeats the "a". */
  lemma AppendModeDuplicatesAfterPartialWrite(id: string)
    ensures var r1 := ProcessOutputAsWritten(NewJob(id), map[], [97, 98], 2, WriteFailed(1));
            var r2 := ProcessOutputAsWritten(r1.job, r1.disk, [99], 2, WriteOk);
            && !r1.ok && r2.ok
            && r2.job.log == CmdLog(1, [])
            && Chunks(r2.disk, id, 1) == [97, 97, 98, 99]
            && !Valid(r2.job, r2.disk, [97, 98, 99])
  {
    var r1 := ProcessOutputAsWritten(NewJob(id), map[], [97, 98], 2, WriteFailed(1));
    PartialFirstWrite(id);
    var r2 := ProcessOutputAsWritten(r1.job, r1.disk, [99], 2, WriteOk);
    AppendAfterPartialWrite(r1.job, r1.disk);
    LongerLogNotValid(r2.job, r2.disk, [97, 98, 99]);
  }

  /** The first call of the example above: one of two bytes reaches chunk 0. */
  lemma PartialFirstWrite(id: string)
    ensures var r := ProcessOutputAsWritten(NewJob(id), map[], [97, 98], 2, WriteFailed(1));
            && !r.ok && r.job.id == id && r.job.log == CmdLog(0, [97, 98])
            && ChunkFileName(id, 0) in r.disk && r.disk[ChunkFileName(id, 0)] == [97]
  {
    assert Written([97, 98], WriteFailed(1)) == [97];
  }

  /** The second call of the example above: the whole buffer is appended
      after the byte already in chunk 0. */
  lemma AppendAfterPartialWrite(j: Job, disk: Disk)
    requires j.log == CmdLog(0, [97, 98])
    requires ChunkFileName(j.id, 0) in disk && disk[ChunkFileName(j.id, 0)] == [97]
    ensures var r := ProcessOutputAsWritten(j, disk, [99], 2, WriteOk);
            && r.ok && r.job.log == CmdLog(1, [])
            && Chunks(r.disk, j.id, 1) == [97, 97, 98, 99]
  {
    var name := ChunkFileName(j.id, 0);
    var r := ProcessOutputAsWritten(j, disk, [99], 2, WriteOk);
    assert r.disk[name] == [97] + [97, 98, 99];
    assert Chunks(r.disk, j.id, 1) == FileContents(r.disk, name);
  }

  /** Chunks and buffer longer than the output cannot replay it. */
  lemma LongerLogNotValid(j: Job, disk: Disk, history: Bytes)
    requires |Chunks(disk, j.id, j.log.nFiles)| + |j.log.buffer| != |history|
    ensures !Valid(j, disk, history)
  {
  }

  /** The same two calls with each chunk file written from scratch: the
      chunk holds exactly what was produced. */
  lemma TruncateModeAfterPartialWrite(id: string)
    ensures var r1 := ProcessOutput(NewJob(id), map[], [97, 98], 2, WriteFailed(1));
            var r2 := ProcessOutput(r1.job, r1.disk, [99], 2, WriteOk);
            && !r1.ok && r2.ok
            && Chunks(r2.disk, id, 1) == [97, 98, 99]
            && Valid(r2.job, r2.disk, [97, 98, 99])
  {
    var j := NewJob(id);
    NewJobValid(id, map[]);
    var r1 := ProcessOutput(j, map[], [97, 98], 2, WriteFailed(1));
    ProcessOutputPreservesLog(j, map[], [], [97, 98], 2, WriteFailed(1));
    ProcessOutputPreservesLog(r1.job, r1.disk, [97, 98], [99], 2, WriteOk);
    var r2 := ProcessOutput(r1.job, r1.disk, [99], 2, WriteOk);
    assert r2.job.log.nFiles == 1;
    assert Chunks(r2.disk, id, 1) + [] == [97, 98] + [99];
  }

  /** No chunk file from index n on holds any bytes. */
  ghost predicate NoLeftovers(disk: Disk, id: string, n: nat) {
    forall i: nat :: n <= i ==> FileContents(disk, ChunkFileName(id, i)) == []
  }

  /** With the chunk file opened for appending, one call keeps the log
      invariant exactly when it does not complete a flush onto bytes that
      chunk file nFiles already holds: a failed flush or no flush always
      keeps it, and a successful one keeps it only on an empty file. */
  lemma AppendModeKeepsLogIff(j: Job, disk: Disk, history: Bytes, out: Bytes, threshold: nat, w: WriteResult)
    requires 0 < threshold
    requires Valid(j, disk, history)
    ensures var r := ProcessOutputAsWritten(j, disk, out, threshold, w);
            Valid(r.job, r.disk, history + out) <==>
              !(r.ok && |j.log.buffer| + |out| >= threshold)
              || FileContents(disk, ChunkFileName(j.id, j.log.nFiles)) == []
  {
    var r := ProcessOutputAsWritten(j, disk, out, threshold, w);
    ListenersFollowOutput(j, r.job, history, out);
    if r.ok && |j.log.buffer| + |out| >= threshold {
      var left := FileContents(disk, ChunkFileName(j.id, j.log.nFiles));
      FlushKeepsChunks(j, disk, r);
      if left == [] {
        ResultKeepsChunks(j, disk, history, out, r);
      } else {
        LongerLogNotValid(r.job, r.disk, history + out);
      }
    } else {
      ResultKeepsChunks(j, disk, history, out, r);
    }
  }

  /** With the chunk file opened for appending, a call that does not stop
      part-way through a write keeps the log invariant, and leaves no bytes
      in chunk files from the new nFiles on, provided there were none from
      the old nFiles on. */
  lemma AppendModePreservesLog(j: Job, disk: Disk, history: Bytes, out: Bytes, threshold: nat, w: WriteResult)
    requires 0 < threshold
    requires Valid(j, disk, history)
    requires NoLeftovers(disk, j.id, j.log.nFiles)
    requires !w.WriteFailed? || w.written == 0
    ensures var r := ProcessOutputAsWritten(j, disk, out, threshold, w);
            Valid(r.job, r.disk, history + out) && NoLeftovers(r.disk, j.id, r.job.log.nFiles)
  {
    var r := ProcessOutputAsWritten(j, disk, out, threshold, w);
    var name := ChunkFileName(j.id, j.log.nFiles);
    assert FileContents(disk, name) == [];
    AppendModeKeepsLogIff(j, disk, history, out, threshold, w);
    forall i: nat | r.job.log.nFiles <= i
      ensures FileContents(r.disk, ChunkFileName(j.id, i)) == []
    {
      if i != j.log.nFiles {
        if ChunkFileName(j.id, i) == name {
          ChunkFileNameInjective(j.id, i, j.log.nFiles);
        }
      }
    }
  }

  /** The pump over the appending ProcessOutput keeps the log invariant as
      long as no write stops part-way and no chunk file from nFiles on held
      bytes at the start. */
  lemma {:induction false} AppendModePumpPreservesLog(j: Job, disk: Disk, history: Bytes, steps: seq<PumpStep>, threshold: nat)
    requires 0 < threshold
    requires Valid(j, disk, history)
    requires NoLeftovers(disk, j.id, j.log.nFiles)
    requires forall k :: 0 <= k < |steps| ==> !steps[k].write.WriteFailed? || steps[k].write.written == 0
    ensures var r := ProcessAllWith(Append, j, disk, steps, threshold);
            Valid(r.job, r.disk, history + Pumped(steps))
    decreases |steps|
  {
    if steps == [] {
      assert history + Pumped(steps) == history;
    } else {
      var first := ProcessOutputAsWritten(j, disk, steps[0].out, threshold, steps[0].write);
      var rest := ProcessAllWith(Append, first.job, first.disk, steps[1..], threshold);
      assert ProcessAllWith(Append, j, disk, steps, threshold).job == rest.job;
      assert ProcessAllWith(Append, j, disk, steps, threshold).disk == rest.disk;
      AppendModePreservesLog(j, disk, history, steps[0].out, threshold, steps[0].write);
      assert forall k :: 0 <= k < |steps[1..]| ==> steps[1..][k] == steps[k + 1];
      AppendModePumpPreservesLog(first.job, first.disk, history + steps[0].out, steps[1..], threshold);
      AppendAssoc(history, steps[0].out, Pumped(steps[1..]));
    }
  }

  /** The finding in general: with the chunk file opened for appending, a
      flush whose write stops after n > 0 bytes keeps the invariant for now,
      but the next call, which flushes the same buffer again, breaks it,
      whatever it reads. */
  lemma AppendModeRetryAfterPartialWrite(j: Job, disk: Disk, history: Bytes, out: Bytes, out2: Bytes, threshold: nat, n: nat)
    requires 0 < threshold && 0 < n
    requires Valid(j, disk, history)
    requires |j.log.buffer| + |out| >= threshold
    ensures var r1 := ProcessOutputAsWritten(j, disk, out, threshold, WriteFailed(n));
            var r2 := ProcessOutputAsWritten(r1.job, r1.disk, out2, threshold, WriteOk);
            && !r1.ok && Valid(r1.job, r1.disk, history + out)
            && r2.ok && !Valid(r2.job, r2.disk, history + out + out2)
  {
    var r1 := ProcessOutputAsWritten(j, disk, out, threshold, WriteFailed(n));
    AppendModeKeepsLogIff(j, disk, history, out, threshold, WriteFailed(n));
    var name := ChunkFileName(j.id, j.log.nFiles);
    assert |Written(j.log.buffer + out, WriteFailed(n))| > 0;
    assert FileContents(r1.disk, name) != [];
    AppendModeKeepsLogIff(r1.job, r1.disk, history + out, out2, threshold, WriteOk);
  }
}
