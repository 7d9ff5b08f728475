/**
 * What the use case promises: the artifact layout, the registrar's single
 * save, and the writer's behaviour on every path (creation failures, the
 * close on every exit after `Create`, writes in arrival order, nothing
 * written after a failed write, silent aborts).
 */
module StreamUsecaseProperties {
  import opened Base
  import opened Errors
  import opened Uuids
  import opened StreamUsecase

  // ------------------------------------------------------------- helpers

  /** The payloads handed to `Write`, in call order. */
  function WrittenData(actions: seq<FsAction>): seq<Bytes>
  {
    if actions == [] then []
    else
      var last := actions[|actions| - 1];
      WrittenData(actions[..|actions| - 1]) + (if last.Write? then [last.data] else [])
  }

  /** The payloads of the chunk events, in arrival order. */
  function ChunkData(events: seq<WriterEvent>): seq<Bytes>
  {
    if events == [] then []
    else
      var last := events[|events| - 1];
      ChunkData(events[..|events| - 1]) + (if last.Chunk? then [last.data] else [])
  }

  lemma {:induction false} WrittenDataAppend(a: seq<FsAction>, b: seq<FsAction>)
    ensures WrittenData(a + b) == WrittenData(a) + WrittenData(b)
  {
    if b == [] {
      assert a + b == a;
    } else {
      assert (a + b)[..|a + b| - 1] == a + b[..|b| - 1];
      WrittenDataAppend(a, b[..|b| - 1]);
    }
  }

  lemma {:induction false} ChunkWritesAreWrites(events: seq<WriterEvent>)
    requires forall i :: 0 <= i < |events| ==> events[i].Chunk?
    ensures WrittenData(ChunkWrites(events)) == ChunkData(events)
    ensures forall a :: a in ChunkWrites(events) ==> a.Write?
  {
    if events != [] {
      var init := events[..|events| - 1];
      ChunkWritesAreWrites(init);
      assert ChunkWrites(events)[..|events| - 1] == ChunkWrites(init);
    }
  }

  lemma {:induction false} ChunkDataLength(events: seq<WriterEvent>)
    ensures |ChunkData(events)| <= |events|
  {
    if events != [] {
      ChunkDataLength(events[..|events| - 1]);
    }
  }

  /** Every event before the stopping one is a chunk. */
  lemma BeforeStopAllChunks(fs: FileSystem, events: seq<WriterEvent>, k: nat)
    requires k == StopIndex(fs, events, 0)
    ensures forall i :: 0 <= i < |events[..k]| ==> events[..k][i].Chunk?
  {
    forall i | 0 <= i < k ensures events[..k][i].Chunk? {
      assert KeepsWriting(fs, events, i);
    }
  }

  /** When every event is a chunk, each one contributes its payload, in order. */
  lemma {:induction false} ChunkDataOfChunks(events: seq<WriterEvent>)
    requires forall i :: 0 <= i < |events| ==> events[i].Chunk?
    ensures |ChunkData(events)| == |events|
    ensures forall i :: 0 <= i < |events| ==> ChunkData(events)[i] == events[i].data
  {
    if events != [] {
      ChunkDataOfChunks(events[..|events| - 1]);
    }
  }

  // --------------------------------------------------------------- paths

  /** The artifact of upload `id` is `./uploads/<id>/<id>`, inside its own folder. */
  lemma ArtifactLayout(id: string)
    ensures ArtifactPath(id) == "./uploads/" + id + "/" + id
    ensures ArtifactPath(id) == GenerateFolderPath(id) + "/" + id
  {
  }

  /** The artifact path determines the id, in both directions. */
  lemma ArtifactIdInverse(id: string, path: string)
    ensures ArtifactId(path) == Some(id) <==> ArtifactPath(id) == path
  {
    var u := |UploadDir|;
    if ArtifactPath(id) == path {
      var n := |id|;
      assert |path| == u + 2 * n + 1;
      assert path[..u] == UploadDir;
      assert path[u..u + n] == id;
      assert path[u + n] == '/';
      assert path[u + n + 1..] == id;
    }
    if ArtifactId(path) == Some(id) {
      var n := (|path| - u - 1) / 2;
      assert path == path[..u] + path[u..u + n] + [path[u + n]] + path[u + n + 1..];
    }
  }

  /** Two uploads never share an artifact. */
  lemma ArtifactPathInjective(a: string, b: string)
    ensures ArtifactPath(a) == ArtifactPath(b) <==> a == b
  {
    ArtifactIdInverse(a, ArtifactPath(a));
    ArtifactIdInverse(b, ArtifactPath(a));
  }

  /** Distinct UUIDs give distinct artifacts. */
  lemma DistinctUploadsDistinctArtifacts(u: Uuid, v: Uuid)
    requires u != v
    ensures ArtifactPath(ToString(u)) != ArtifactPath(ToString(v))
  {
    ToStringInjective(u, v);
    ArtifactPathInjective(ToString(u), ToString(v));
  }

  // ----------------------------------------------------- the registrar

  /** One record is saved; on success the id is the UUID's text, never empty. */
  lemma RegistrationSucceeds(details: FileDetailsRequest, newId: Uuid, now: Timestamp,
                             save: FileDetails -> Option<Error>)
    requires save(FileDetails(newId, details.name, details.contentType, now)).None?
    ensures var r := UploadFileDetails(details, newId, now, save);
      && |r.saved| == 1 && r.saved[0].id == newId
      && r.saved[0].name == details.name && r.saved[0].contentType == details.contentType
      && r.err == None && r.fileId != "" && Parse(r.fileId) == Some(newId)
  {
    ParseToString(newId);
  }

  // -------------------------------------------------------- the writer

  /**
   * A failed `MkdirAll` or `Create` reports exactly the wrapped cause and
   * touches nothing further: no `Create` after a failed `MkdirAll`, and no
   * `Write` or `Close` after either.
   */
  lemma CreationFailure(id: string, fs: FileSystem, events: seq<WriterEvent>)
    requires fs.mkdirErr.Some? || fs.createErr.Some?
    ensures var run := WriterSpec(id, fs, events);
      && run.reported.Some?
      && run.consumed == 0
      && (forall a :: a in run.actions ==> !a.Write? && a != Close)
      && (fs.mkdirErr.Some? ==>
            run.actions == [MkdirAll(GenerateFolderPath(id))] && run.exit == MkdirFailed
            && Unwrap(run.reported.value) == fs.mkdirErr)
      && (fs.mkdirErr.None? ==>
            run.actions == [MkdirAll(GenerateFolderPath(id)), Create(ArtifactPath(id))]
            && run.exit == CreateFailed && Unwrap(run.reported.value) == fs.createErr)
  {
  }

  /** The calls made before the loop write nothing. */
  lemma CreationWritesNothing(id: string)
    ensures WrittenData([MkdirAll(GenerateFolderPath(id))]) == []
    ensures WrittenData([MkdirAll(GenerateFolderPath(id)), Create(ArtifactPath(id))]) == []
  {
    var prefix := [MkdirAll(GenerateFolderPath(id)), Create(ArtifactPath(id))];
    assert prefix[..1] == [MkdirAll(GenerateFolderPath(id))];
    assert prefix[..1][..0] == [];
  }

  /** The loop ends with the deferred `Close`, preceded at most by the failed `Write`. */
  lemma LoopEndCloses(fs: FileSystem, events: seq<WriterEvent>, k: nat)
    requires k <= |events|
    requires k < |events| ==> !KeepsWriting(fs, events, k)
    ensures var end := LoopEnd(fs, events, k);
      && |end.actions| >= 1 && end.actions[|end.actions| - 1] == Close
      && multiset(end.actions)[Close] == 1
  {
  }

  /** The loop's last event adds its own chunk, if it is one, to what was written. */
  lemma LoopEndWrites(fs: FileSystem, events: seq<WriterEvent>, k: nat)
    requires k <= |events|
    requires k < |events| ==> !KeepsWriting(fs, events, k)
    ensures var end := LoopEnd(fs, events, k);
      && k <= end.consumed <= |events|
      && ChunkData(events[..end.consumed]) == ChunkData(events[..k]) + WrittenData(end.actions)
  {
    var end := LoopEnd(fs, events, k);
    if k < |events| {
      assert events[..k + 1][..k] == events[..k];
      if events[k].Chunk? {
        assert end.actions[..1] == [Write(events[k].data)];
        assert end.actions[..1][..0] == [];
      }
    } else {
      assert end.actions[..0] == [];
    }
  }

  /** Once the file exists, the writes are the chunks taken, in order. */
  lemma WritingRunWrites(id: string, fs: FileSystem, events: seq<WriterEvent>)
    ensures var run := WritingRun(id, fs, events);
      run.consumed <= |events| && WrittenData(run.actions) == ChunkData(events[..run.consumed])
  {
    var prefix := [MkdirAll(GenerateFolderPath(id)), Create(ArtifactPath(id))];
    var k := StopIndex(fs, events, 0);
    var writes := ChunkWrites(events[..k]);
    var end := LoopEnd(fs, events, k);
    assert WritingRun(id, fs, events).actions == (prefix + writes) + end.actions;
    assert WrittenData(prefix + writes) == ChunkData(events[..k]) by {
      BeforeStopAllChunks(fs, events, k);
      ChunkWritesAreWrites(events[..k]);
      CreationWritesNothing(id);
      WrittenDataAppend(prefix, writes);
    }
    WrittenDataAppend(prefix + writes, end.actions);
    LoopEndWrites(fs, events, k);
  }

  /** Once the file exists, the run starts at the upload's paths and ends with its one `Close`. */
  lemma WritingRunCloses(id: string, fs: FileSystem, events: seq<WriterEvent>)
    ensures var run := WritingRun(id, fs, events);
      && run.actions[..2] == [MkdirAll(GenerateFolderPath(id)), Create(ArtifactPath(id))]
      && run.actions[|run.actions| - 1] == Close
      && multiset(run.actions)[Close] == 1
  {
    var prefix := [MkdirAll(GenerateFolderPath(id)), Create(ArtifactPath(id))];
    var k := StopIndex(fs, events, 0);
    var writes := ChunkWrites(events[..k]);
    var end := LoopEnd(fs, events, k);
    var actions := WritingRun(id, fs, events).actions;
    assert actions == prefix + writes + end.actions;
    assert multiset(writes)[Close] == 0 by {
      BeforeStopAllChunks(fs, events, k);
      ChunkWritesAreWrites(events[..k]);
      assert Close !in writes;
    }
    LoopEndCloses(fs, events, k);
    assert multiset(actions) == multiset(prefix) + multiset(writes) + multiset(end.actions);
  }

  /**
   * `Close` is called exactly once, as the last call, exactly when the file
   * was created; it follows the folder and the file at the upload's paths.
   */
  lemma CloseOnEveryExit(id: string, fs: FileSystem, events: seq<WriterEvent>)
    ensures var run := WriterSpec(id, fs, events);
      (Close in run.actions <==> fs.mkdirErr.None? && fs.createErr.None?)
    ensures var run := WriterSpec(id, fs, events);
      fs.mkdirErr.None? && fs.createErr.None? ==>
        && run.actions[..2] == [MkdirAll(GenerateFolderPath(id)), Create(ArtifactPath(id))]
        && run.actions[|run.actions| - 1] == Close
        && multiset(run.actions)[Close] == 1
  {
    if fs.mkdirErr.None? && fs.createErr.None? {
      WritingRunCloses(id, fs, events);
    } else {
      CreationFailure(id, fs, events);
    }
  }

  /**
   * Every chunk the writer takes is written exactly once, in arrival order,
   * and nothing else is written: the written payloads are the chunks among
   * the consumed events.
   */
  lemma WritesFollowArrival(id: string, fs: FileSystem, events: seq<WriterEvent>)
    ensures var run := WriterSpec(id, fs, events);
      run.consumed <= |events| && WrittenData(run.actions) == ChunkData(events[..run.consumed])
  {
    if fs.mkdirErr.None? && fs.createErr.None? {
      WritingRunWrites(id, fs, events);
    } else {
      CreationWritesNothing(id);
      assert events[..0] == [];
    }
  }

  /** No chunk is written after a failed write: if write `j` fails, at most `j + 1` writes happen. */
  lemma NoWriteAfterFailure(id: string, fs: FileSystem, events: seq<WriterEvent>, j: nat)
    requires fs.WriteResult(j).Some?
    ensures |WrittenData(WriterSpec(id, fs, events).actions)| <= j + 1
  {
    var run := WriterSpec(id, fs, events);
    WritesFollowArrival(id, fs, events);
    ChunkDataLength(events[..run.consumed]);
    if fs.mkdirErr.None? && fs.createErr.None? && j < |events| {
      assert !KeepsWriting(fs, events, j);
    }
  }

  /**
   * A failed write sends one error, the wrapped cause, and ends the loop at
   * that chunk: every earlier event was a chunk whose write succeeded, and the
   * failed chunk's `Write` is followed only by `Close`.
   */
  lemma WriteFailureEndsLoop(id: string, fs: FileSystem, events: seq<WriterEvent>)
    ensures var run := WriterSpec(id, fs, events);
      run.exit == WriteFailed ==>
        && 1 <= run.consumed <= |events|
        && (forall i :: 0 <= i < run.consumed - 1 ==> events[i].Chunk? && fs.WriteResult(i).None?)
        && events[run.consumed - 1].Chunk?
        && run.reported == Some(Wrap(WriteErrPrefix, fs.WriteResult(run.consumed - 1).value))
        && run.actions[|run.actions| - 2..] == [Write(events[run.consumed - 1].data), Close]
  {
    var run := WriterSpec(id, fs, events);
    if fs.mkdirErr.None? && fs.createErr.None? {
      forall i | 0 <= i < run.consumed - 1 ensures events[i].Chunk? && fs.WriteResult(i).None? {
        assert KeepsWriting(fs, events, i);
      }
    }
  }

  /**
   * The loop stops at the first event that is not a chunk written
   * successfully.
   */
  lemma FirstStop(fs: FileSystem, events: seq<WriterEvent>, j: nat)
    requires j < |events|
    requires forall i :: 0 <= i < j ==> events[i].Chunk? && fs.WriteResult(i).None?
    requires !KeepsWriting(fs, events, j)
    ensures StopIndex(fs, events, 0) == j
  {
    forall i | 0 <= i < j ensures KeepsWriting(fs, events, i) {
    }
  }

  /**
   * Once the folder and the file exist, the first chunk whose write fails
   * ends the writer: that failure, wrapped, is the error it sends, and the
   * loop has taken exactly the events up to that chunk.
   */
  lemma WriteFailureReported(id: string, fs: FileSystem, events: seq<WriterEvent>, j: nat)
    requires fs.mkdirErr.None? && fs.createErr.None?
    requires j < |events|
    requires forall i :: 0 <= i < j ==> events[i].Chunk? && fs.WriteResult(i).None?
    requires events[j].Chunk? && fs.WriteResult(j).Some?
    ensures var run := WriterSpec(id, fs, events);
      && run.exit == WriteFailed
      && run.reported == Some(Wrap(WriteErrPrefix, fs.WriteResult(j).value))
      && run.consumed == j + 1
      && run.actions[|run.actions| - 2..] == [Write(events[j].data), Close]
  {
    FirstStop(fs, events, j);
  }

  /**
   * Once the folder and the file exist, the first event that is not a chunk
   * ends the writer without an error, and the exit follows that event: the
   * terminal signal completes, any other control value is a client abort,
   * then cancellation and the timeout.
   */
  lemma SilentStop(id: string, fs: FileSystem, events: seq<WriterEvent>, j: nat)
    requires fs.mkdirErr.None? && fs.createErr.None?
    requires j < |events|
    requires forall i :: 0 <= i < j ==> events[i].Chunk? && fs.WriteResult(i).None?
    requires !events[j].Chunk?
    ensures var run := WriterSpec(id, fs, events);
      && run.reported == None
      && run.consumed == j + 1
      && run.actions[|run.actions| - 1] == Close
      && run.exit == match events[j]
                     case Control(e) => if e == Eof then Completed else ClientAborted
                     case Cancelled => ContextCancelled
                     case _ => TimedOut
  {
    FirstStop(fs, events, j);
  }

  /**
   * When every event is a chunk written successfully, the writer waits until
   * its inactivity timer fires: it ends on the timeout, silently, having
   * taken all the events.
   */
  lemma EventsRunOut(id: string, fs: FileSystem, events: seq<WriterEvent>)
    requires fs.mkdirErr.None? && fs.createErr.None?
    requires forall i :: 0 <= i < |events| ==> events[i].Chunk? && fs.WriteResult(i).None?
    ensures var run := WriterSpec(id, fs, events);
      && run.reported == None
      && run.exit == TimedOut
      && run.consumed == |events|
  {
    forall i | 0 <= i < |events| ensures KeepsWriting(fs, events, i) {
    }
  }

  /**
   * The error sent on the control channel: there is one exactly when a
   * file-system call failed (creating the folder, creating the file, or the
   * write of a chunk the loop took); the terminal signal, a client abort,
   * cancellation and the timeout all end the writer silently.
   */
  lemma ReportsOnlyStorageFailures(id: string, fs: FileSystem, events: seq<WriterEvent>)
    ensures var run := WriterSpec(id, fs, events);
      run.reported.Some? <==>
        || fs.mkdirErr.Some?
        || fs.createErr.Some?
        || exists i :: 0 <= i < run.consumed && events[i].Chunk? && fs.WriteResult(i).Some?
    ensures var run := WriterSpec(id, fs, events);
      run.reported.Some? <==> run.exit in {MkdirFailed, CreateFailed, WriteFailed}
    ensures var run := WriterSpec(id, fs, events);
      run.reported.None? <==> run.exit in {Completed, ClientAborted, ContextCancelled, TimedOut}
  {
    var run := WriterSpec(id, fs, events);
    if fs.mkdirErr.None? && fs.createErr.None? {
      var k := StopIndex(fs, events, 0);
      forall i | 0 <= i < k ensures KeepsWriting(fs, events, i) {
      }
      if run.reported.Some? {
        assert events[k].Chunk? && fs.WriteResult(k).Some?;
      } else {
        forall i | 0 <= i < run.consumed ensures !(events[i].Chunk? && fs.WriteResult(i).Some?) {
          if i < k {
            assert KeepsWriting(fs, events, i);
          }
        }
      }
    }
  }

  /** Which event ended the writer, for each silent exit; every earlier event was a chunk. */
  lemma SilentExitCause(id: string, fs: FileSystem, events: seq<WriterEvent>)
    ensures var run := WriterSpec(id, fs, events);
      run.exit in {Completed, ClientAborted, ContextCancelled, TimedOut} ==>
        && run.consumed <= |events|
        && (forall i :: 0 <= i < run.consumed - 1 ==> events[i].Chunk?)
        && (run.exit == Completed ==> 1 <= run.consumed && events[run.consumed - 1] == Control(Eof))
        && (run.exit == ClientAborted ==>
              1 <= run.consumed && events[run.consumed - 1].Control? && events[run.consumed - 1].err != Eof)
        && (run.exit == ContextCancelled ==> 1 <= run.consumed && events[run.consumed - 1] == Cancelled)
        && (run.exit == TimedOut ==>
              run.consumed == |events| || events[run.consumed - 1] == Timeout)
  {
    var run := WriterSpec(id, fs, events);
    if fs.mkdirErr.None? && fs.createErr.None? {
      var k := StopIndex(fs, events, 0);
      forall i | 0 <= i < run.consumed - 1 ensures events[i].Chunk? {
        assert KeepsWriting(fs, events, i);
      }
    }
  }

  /** Event `n` is the terminal signal and every event before it is a chunk. */
  predicate ChunksThenTerminal(events: seq<WriterEvent>, n: nat)
  {
    && n < |events|
    && events[n] == Control(Eof)
    && forall i :: 0 <= i < n ==> events[i].Chunk?
  }

  /**
   * With the writes of the first `n` chunks succeeding, the loop runs
   * through them and stops at the terminal signal; later events are never
   * taken.
   */
  lemma StopAtEof(fs: FileSystem, events: seq<WriterEvent>, n: nat)
    requires ChunksThenTerminal(events, n)
    requires forall j :: 0 <= j < n ==> fs.WriteResult(j).None?
    ensures StopIndex(fs, events, 0) == n
    ensures LoopEnd(fs, events, n) == WriterRun([Close], None, Completed, n + 1)
  {
    assert !KeepsWriting(fs, events, n);
    forall j | 0 <= j < n ensures KeepsWriting(fs, events, j) {
    }
  }

  /**
   * N chunks followed by the terminal signal, with every write succeeding:
   * exactly N writes carrying those chunks in order, one `Close`, no error,
   * and nothing after the terminal signal is taken.
   */
  lemma ChunksThenEof(id: string, fs: FileSystem, events: seq<WriterEvent>, n: nat)
    requires fs.mkdirErr.None? && fs.createErr.None?
    requires ChunksThenTerminal(events, n)
    requires forall j :: 0 <= j < n ==> fs.WriteResult(j).None?
    ensures var run := WriterSpec(id, fs, events);
      && |WrittenData(run.actions)| == n
      && (forall i :: 0 <= i < n ==> WrittenData(run.actions)[i] == events[i].data)
      && run.reported == None
      && run.exit == Completed
      && run.consumed == n + 1
      && multiset(run.actions)[Close] == 1
  {
    var run := WritingRun(id, fs, events);
    assert run.consumed == n + 1 && run.reported == None && run.exit == Completed by {
      StopAtEof(fs, events, n);
    }
    assert WrittenData(run.actions) == ChunkData(events[..n]) by {
      WritingRunWrites(id, fs, events);
      assert events[..n + 1][..n] == events[..n];
      assert ChunkData(events[..n + 1]) == ChunkData(events[..n]) + [];
    }
    ChunkDataOfChunks(events[..n]);
    WritingRunCloses(id, fs, events);
  }
}
