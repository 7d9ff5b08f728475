/**
 * The stream use case (`streamUseCase`): the metadata registrar
 * `UploadFileDetails`, the storage writer `UploadFileAsStream`, and the path
 * helpers that place one upload's artifact on disk.
 *
 * The collaborators are inputs: the repository is a function from the record
 * to the error its save returns, and the file system is a `FileSystem` value
 * that fixes the outcome of `MkdirAll`, of `Create` and of each `Write`. The
 * two channels and the context the writer selects on are flattened into one
 * sequence of `WriterEvent`s, in the order the writer's `select` takes them.
 */
module StreamUsecase {
  import opened Base
  import opened Errors
  import opened Uuids

  /** `uploadDir`: the root under which every upload gets its own folder. */
  const UploadDir: string := "./uploads/"

  /**
   * `funcMaxWait`, in seconds: how long the writer waits for any event before
   * it gives up. Time itself is not modelled; a `Timeout` event stands for
   * this much silence.
   */
  const FuncMaxWaitSeconds: nat := 5

  // ---------------------------------------------------------------- paths

  function GenerateFolderPath(fileId: string): string
  {
    UploadDir + fileId
  }

  function GenerateFilePath(folderPath: string, fileId: string): string
  {
    folderPath + "/" + fileId
  }

  /** Where the writer puts the bytes of upload `fileId`. */
  function ArtifactPath(fileId: string): string
  {
    GenerateFilePath(GenerateFolderPath(fileId), fileId)
  }

  /** Recovers the id from an artifact path: the id-to-file mapping needs no index. */
  function ArtifactId(path: string): (id: Option<string>)
  {
    var u := |UploadDir|;
    if |path| < u + 1 || (|path| - u - 1) % 2 != 0 then None
    else
      var n := (|path| - u - 1) / 2;
      if path[..u] == UploadDir && path[u + n] == '/' && path[u..u + n] == path[u + n + 1..]
      then Some(path[u..u + n])
      else None
  }

  // ---------------------------------------------------- metadata registrar

  /** `request.FileDetails`: what the caller supplies. */
  datatype FileDetailsRequest = FileDetailsRequest(name: string, contentType: string)

  /** The value of `time.Now()`; opaque to this core. */
  datatype Timestamp = Timestamp(unixNanos: int)

  /** `domain.FileDetails`: the record the repository persists. */
  datatype FileDetails = FileDetails(id: Uuid, name: string, contentType: string, uploadedAt: Timestamp)

  /**
   * What `UploadFileDetails` returns, `(string, error)`, together with the
   * records it handed to `SaveFileDetails`, in call order.
   */
  datatype Registration = Registration(fileId: string, err: Option<Error>, saved: seq<FileDetails>)

  const SaveDetailsErrPrefix: string := "failed to save file details on database: \n"

  /**
   * `UploadFileDetails`. `newId` is the value of `uuid.New()`, `now` that of
   * `time.Now()`, and `save` is `SaveFileDetails` of the repository.
   */
  function UploadFileDetails(details: FileDetailsRequest, newId: Uuid, now: Timestamp,
                             save: FileDetails -> Option<Error>): (r: Registration)
    ensures r.saved == [FileDetails(newId, details.name, details.contentType, now)]
    ensures r.err.None? <==> save(r.saved[0]).None?
    ensures r.err.None? ==> r.fileId == ToString(newId) && |r.fileId| == 36
    ensures r.err.Some? ==> r.fileId == "" && Unwrap(r.err.value) == save(r.saved[0])
    ensures r.err.Some? ==> EndsWith(Message(r.err.value), Message(save(r.saved[0]).value))
  {
    var record := FileDetails(newId, details.name, details.contentType, now);
    match save(record)
    case Some(err) => Registration("", Some(Wrap(SaveDetailsErrPrefix, err)), [record])
    case None => Registration(ToString(newId), None, [record])
  }

  // -------------------------------------------------------- storage writer

  /** A call the writer makes on the file handler or on the file it created. */
  datatype FsAction = MkdirAll(path: string) | Create(path: string) | Write(data: Bytes) | Close

  /**
   * The outcomes the file system gives: `MkdirAll`, `Create`, and the n-th
   * `Write` (`writeErrs[n]`; a write past the end of the list succeeds).
   */
  datatype FileSystem = FileSystem(mkdirErr: Option<Error>, createErr: Option<Error>,
                                   writeErrs: seq<Option<Error>>)
  {
    function WriteResult(n: nat): Option<Error>
    {
      if n < |writeErrs| then writeErrs[n] else None
    }
  }

  /**
   * One case of the writer's `select`: a chunk on the data channel, a value on
   * the control channel (`io.EOF` is the terminal signal), the context being
   * cancelled, or the inactivity timer firing (`Timeout`: no event for
   * `FuncMaxWaitSeconds` seconds, a fresh timer starting at every wait).
   */
  datatype WriterEvent = Chunk(data: Bytes) | Control(err: Error) | Cancelled | Timeout

  /** How the writer ended. */
  datatype WriterExit =
    | MkdirFailed | CreateFailed | WriteFailed
    | Completed | ClientAborted | ContextCancelled | TimedOut

  /**
   * One run of the writer: the file-system calls in order, the error it sent
   * on the control channel (at most one), how it ended and how many events it
   * took.
   */
  datatype WriterRun = WriterRun(actions: seq<FsAction>, reported: Option<Error>, exit: WriterExit, consumed: nat)

  const MkdirErrPrefix: string := "failed to create directory for upload file: "
  const CreateErrPrefix: string := "failed to create file details on server: "
  const WriteErrPrefix: string := "failed to write data on file: "

  /** Event `i` lets the loop go on: it is a chunk and its write succeeds. */
  predicate KeepsWriting(fs: FileSystem, events: seq<WriterEvent>, i: nat)
    requires i < |events|
  {
    events[i].Chunk? && fs.WriteResult(i).None?
  }

  /** The index of the event that ends the loop, or `|events|` when none does. */
  function StopIndex(fs: FileSystem, events: seq<WriterEvent>, from: nat): (k: nat)
    requires from <= |events|
    ensures from <= k <= |events|
    ensures forall j :: from <= j < k ==> KeepsWriting(fs, events, j)
    ensures k < |events| ==> !KeepsWriting(fs, events, k)
    decreases |events| - from
  {
    if from == |events| || !KeepsWriting(fs, events, from) then from
    else StopIndex(fs, events, from + 1)
  }

  /** The payload a chunk event carries. */
  function Payload(e: WriterEvent): Bytes
  {
    if e.Chunk? then e.data else []
  }

  /** One `Write` per chunk of a run of chunk events, in order. */
  function ChunkWrites(chunks: seq<WriterEvent>): (writes: seq<FsAction>)
    ensures |writes| == |chunks|
  {
    seq(|chunks|, i requires 0 <= i < |chunks| => Write(Payload(chunks[i])))
  }

  /**
   * How the loop ends at event `k`, the first that does not keep it going:
   * the calls still made (the failed `Write`, if any, then the deferred
   * `Close`), the error sent, the exit and the events taken. When the events
   * run out the inactivity timer is the only thing left that can fire.
   */
  function LoopEnd(fs: FileSystem, events: seq<WriterEvent>, k: nat): WriterRun
    requires k <= |events|
    requires k < |events| ==> !KeepsWriting(fs, events, k)
  {
    if k == |events| then WriterRun([Close], None, TimedOut, k)
    else match events[k]
      case Chunk(d) => WriterRun([Write(d), Close], Some(Wrap(WriteErrPrefix, fs.WriteResult(k).value)), WriteFailed, k + 1)
      case Control(e) => WriterRun([Close], None, if e == Eof then Completed else ClientAborted, k + 1)
      case Cancelled => WriterRun([Close], None, ContextCancelled, k + 1)
      case Timeout => WriterRun([Close], None, TimedOut, k + 1)
  }

  /**
   * The writer once the folder and the file exist: every event before the
   * first stopping one is a chunk that is written, and `LoopEnd` gives the
   * rest.
   */
  function WritingRun(fileId: string, fs: FileSystem, events: seq<WriterEvent>): WriterRun
  {
    var k := StopIndex(fs, events, 0);
    var end := LoopEnd(fs, events, k);
    WriterRun([MkdirAll(GenerateFolderPath(fileId)), Create(GenerateFilePath(GenerateFolderPath(fileId), fileId))]
              + ChunkWrites(events[..k]) + end.actions,
              end.reported, end.exit, end.consumed)
  }

  /** What the writer does: a creation failure ends it at once, otherwise it runs `WritingRun`. */
  function WriterSpec(fileId: string, fs: FileSystem, events: seq<WriterEvent>): WriterRun
  {
    var folderPath := GenerateFolderPath(fileId);
    if fs.mkdirErr.Some? then
      WriterRun([MkdirAll(folderPath)], Some(Wrap(MkdirErrPrefix, fs.mkdirErr.value)), MkdirFailed, 0)
    else if fs.createErr.Some? then
      WriterRun([MkdirAll(folderPath), Create(GenerateFilePath(folderPath, fileId))],
                Some(Wrap(CreateErrPrefix, fs.createErr.value)), CreateFailed, 0)
    else
      WritingRun(fileId, fs, events)
  }

  /**
   * `UploadFileAsStream`: create the folder and the file, then take events
   * one at a time until one ends the loop; the deferred `Close` runs on every
   * exit after `Create` succeeded.
   */
  method UploadFileAsStream(fileId: string, fs: FileSystem, events: seq<WriterEvent>) returns (run: WriterRun)
    ensures run == WriterSpec(fileId, fs, events)
  {
    var folderPath := GenerateFolderPath(fileId);
    var actions := [MkdirAll(folderPath)];
    if fs.mkdirErr.Some? {
      return WriterRun(actions, Some(Wrap(MkdirErrPrefix, fs.mkdirErr.value)), MkdirFailed, 0);
    }
    var filePath := GenerateFilePath(folderPath, fileId);
    actions := actions + [Create(filePath)];
    if fs.createErr.Some? {
      return WriterRun(actions, Some(Wrap(CreateErrPrefix, fs.createErr.value)), CreateFailed, 0);
    }
    // defer file.Close()
    var reported: Option<Error> := None;
    var exit := TimedOut;
    var i := 0;
    ghost var stop := StopIndex(fs, events, 0);
    while true
      invariant i <= stop
      invariant actions == [MkdirAll(folderPath), Create(filePath)] + ChunkWrites(events[..i])
      decreases |events| - i
    {
      if i == |events| {
        // nothing else arrives, so the inactivity timer fires
        exit := TimedOut;
        break;
      }
      var event := events[i];
      assert i < stop <==> KeepsWriting(fs, events, i);
      i := i + 1;
      match event {
        case Chunk(d) =>
          assert ChunkWrites(events[..i]) == ChunkWrites(events[..i - 1]) + [Write(d)];
          actions := actions + [Write(d)];
          var writeErr := fs.WriteResult(i - 1);
          if writeErr.Some? {
            reported := Some(Wrap(WriteErrPrefix, writeErr.value));
            exit := WriteFailed;
            break;
          }
        case Control(e) =>
          exit := if e == Eof then Completed else ClientAborted;
          break;
        case Cancelled =>
          exit := ContextCancelled;
          break;
        case Timeout =>
          exit := TimedOut;
          break;
      }
    }
    actions := actions + [Close];
    run := WriterRun(actions, reported, exit, i);
  }
}
