/**
 * The ingest coordinator and the storage writer of one upload, connected:
 * the writer's events are what the coordinator puts on the channels they
 * share (`dataChan`, `errChan`) and on the context it hands over.
 */
module UploadPipeline {
  import opened Base
  import opened Errors
  import opened Uuids
  import opened StreamUsecase
  import opened StreamUsecaseProperties
  import opened StreamService
  import opened StreamServiceProperties

  /** What one coordinator effect shows the writer's `select`. */
  function EventsOf(e: Effect): seq<WriterEvent>
  {
    match e
    case SendData(d) => [Chunk(d)]
    case SendEof => [Control(Eof)]
    case CancelContext => [Cancelled]
    case _ => []
  }

  /** The writer's events, in the order the coordinator's effects produce them. */
  function WriterEvents(effects: seq<Effect>): seq<WriterEvent>
  {
    if effects == [] then []
    else WriterEvents(effects[..|effects| - 1]) + EventsOf(effects[|effects| - 1])
  }

  /** One chunk event per payload, in order. */
  function ChunkEvents(chunks: seq<Bytes>): (events: seq<WriterEvent>)
    ensures |events| == |chunks|
  {
    seq(|chunks|, i requires 0 <= i < |chunks| => Chunk(chunks[i]))
  }

  /** The bytes of the artifact: what the writes put in the file, in order. */
  function FileContent(actions: seq<FsAction>): Bytes
  {
    Concat(WrittenData(actions))
  }

  /** One more effect adds its own events at the end. */
  lemma WriterEventsSnoc(a: seq<Effect>, e: Effect)
    ensures WriterEvents(a + [e]) == WriterEvents(a) + EventsOf(e)
  {
    var c := a + [e];
    assert c[..|c| - 1] == a;
  }

  lemma {:induction false} WriterEventsAppend(a: seq<Effect>, b: seq<Effect>)
    ensures WriterEvents(a + b) == WriterEvents(a) + WriterEvents(b)
  {
    if b == [] {
      assert a + b == a;
    } else {
      var init := b[..|b| - 1];
      var e := b[|b| - 1];
      calc {
        WriterEvents(a + b);
        { assert a + b == (a + init) + [e]; }
        WriterEvents((a + init) + [e]);
        { WriterEventsSnoc(a + init, e); }
        WriterEvents(a + init) + EventsOf(e);
        { WriterEventsAppend(a, init); }
        WriterEvents(a) + WriterEvents(init) + EventsOf(e);
        { WriterEventsSnoc(init, e); assert init + [e] == b; }
        WriterEvents(a) + WriterEvents(b);
      }
    }
  }

  /** Each data-channel send reaches the writer as the chunk it carries. */
  lemma {:induction false} SendsBecomeChunks(chunks: seq<Bytes>)
    ensures WriterEvents(Sends(chunks)) == ChunkEvents(chunks)
  {
    if chunks != [] {
      var init := chunks[..|chunks| - 1];
      SendsBecomeChunks(init);
      assert Sends(chunks)[..|chunks| - 1] == Sends(init);
      assert ChunkEvents(chunks) == ChunkEvents(init) + [Chunk(chunks[|chunks| - 1])];
    }
  }

  /** Registering the details and starting the writer put nothing on the writer's channels. */
  lemma SetupShowsNothing(details: FileDetailsRequest, id: string)
    ensures WriterEvents([RegisterDetails(details), StartWriter(id)]) == []
  {
    WriterEventsSnoc([], RegisterDetails(details));
    WriterEventsSnoc([RegisterDetails(details)], StartWriter(id));
    assert [RegisterDetails(details)] + [StartWriter(id)] == [RegisterDetails(details), StartWriter(id)];
  }

  /** The end of a complete stream shows the writer the terminal signal, then the cancellation. */
  lemma EndingEvents(id: string)
    ensures WriterEvents([SendEof, SendAndClose(id), CancelContext]) == [Control(Eof), Cancelled]
  {
    WriterEventsSnoc([], SendEof);
    WriterEventsSnoc([SendEof], SendAndClose(id));
    WriterEventsSnoc([SendEof, SendAndClose(id)], CancelContext);
    assert [] + [SendEof] == [SendEof];
    assert [SendEof] + [SendAndClose(id)] == [SendEof, SendAndClose(id)];
    assert [SendEof, SendAndClose(id)] + [CancelContext] == [SendEof, SendAndClose(id), CancelContext];
  }

  /**
   * What the writer sees of a complete stream: the chunks, then the terminal
   * signal, then the cancelled context.
   */
  lemma CompleteStreamEvents(id: string, details: FileDetailsRequest, chunks: seq<Bytes>)
    ensures WriterEvents([RegisterDetails(details), StartWriter(id)] + Sends(chunks)
                         + [SendEof, SendAndClose(id), CancelContext])
            == ChunkEvents(chunks) + [Control(Eof), Cancelled]
  {
    var prefix := [RegisterDetails(details), StartWriter(id)];
    var suffix := [SendEof, SendAndClose(id), CancelContext];
    calc {
      WriterEvents(prefix + Sends(chunks) + suffix);
      { WriterEventsAppend(prefix + Sends(chunks), suffix); }
      WriterEvents(prefix + Sends(chunks)) + WriterEvents(suffix);
      { WriterEventsAppend(prefix, Sends(chunks)); }
      WriterEvents(prefix) + WriterEvents(Sends(chunks)) + WriterEvents(suffix);
      { SetupShowsNothing(details, id); SendsBecomeChunks(chunks); EndingEvents(id); }
      [] + ChunkEvents(chunks) + [Control(Eof), Cancelled];
      { assert [] + ChunkEvents(chunks) == ChunkEvents(chunks); }
      ChunkEvents(chunks) + [Control(Eof), Cancelled];
    }
  }

  /**
   * A complete upload: the info frame, N data frames and the end of the
   * stream, with the database save, the folder and file creation and every
   * write succeeding and no writer error pending. One record with the
   * client's name and content type is saved under the fresh UUID; the client
   * gets that UUID's text back; the artifact `./uploads/<id>/<id>` receives
   * exactly the N chunks in order, so its content is their concatenation;
   * the writer ends on the terminal signal with nothing reported and closes
   * the file once.
   */
  lemma CompleteUpload(info: FileMetaData, chunks: seq<Bytes>, newId: Uuid, now: Timestamp,
                       save: FileDetails -> Option<Error>, polls: seq<Option<Error>>,
                       closeErr: Option<Error>, fs: FileSystem)
    requires save(FileDetails(newId, info.name, info.contentType, now)).None?
    requires forall j :: 0 <= j <= |chunks| ==> PollResult(polls, j).None?
    requires fs.mkdirErr.None? && fs.createErr.None?
    requires forall j :: 0 <= j < |chunks| ==> fs.WriteResult(j).None?
    ensures var register := d => UploadFileDetails(d, newId, now, save);
      var run := UploadSpec(CompleteStream(info, chunks), register, polls, closeErr);
      var id := ToString(newId);
      var writer := WriterSpec(id, fs, WriterEvents(run.effects));
      && register(DetailsOf(info)).saved == [FileDetails(newId, info.name, info.contentType, now)]
      && run.result == Replied(id, closeErr)
      && Parse(id) == Some(newId)
      && writer.actions[..2] == [MkdirAll("./uploads/" + id), Create("./uploads/" + id + "/" + id)]
      && WrittenData(writer.actions) == chunks
      && FileContent(writer.actions) == Concat(chunks)
      && writer.reported == None
      && writer.exit == Completed
      && writer.actions[|writer.actions| - 1] == Close
      && multiset(writer.actions)[Close] == 1
  {
    var register := d => UploadFileDetails(d, newId, now, save);
    var details := DetailsOf(info);
    var id := ToString(newId);
    assert register(details).err.None? && register(details).fileId == id && Parse(id) == Some(newId) by {
      RegistrationSucceeds(details, newId, now, save);
    }
    CompleteStreamReplies(info, chunks, register, polls, closeErr);
    var run := UploadSpec(CompleteStream(info, chunks), register, polls, closeErr);
    var events := WriterEvents(run.effects);
    var n := |chunks|;
    assert events == ChunkEvents(chunks) + [Control(Eof), Cancelled] by {
      CompleteStreamEvents(id, details, chunks);
    }
    assert ChunksThenTerminal(events, n);
    ChunksThenEof(id, fs, events, n);
    var writer := WriterSpec(id, fs, events);
    assert WrittenData(writer.actions) == chunks by {
      forall i | 0 <= i < n ensures WrittenData(writer.actions)[i] == chunks[i] {
        assert events[i] == Chunk(chunks[i]);
      }
    }
    CloseOnEveryExit(id, fs, events);
    ArtifactLayout(id);
  }
}
