# Upload pipeline of stream-service, modelled in Dafny

stream-service accepts a file over a client-streaming gRPC call (`Upload`).
The first frame carries the file's name and content type. The handler
registers those details in the database under a fresh UUID. It then starts a
goroutine, the storage writer, which creates `./uploads/<id>/<id>` and writes
every chunk the handler passes it over a channel. When the client ends the
stream, the handler sends `io.EOF` to the writer on the control channel and
replies with the id.

This project models the three pieces of that pipeline and proves what each
promises:

- **Metadata registrar** (`StreamUsecase.UploadFileDetails`): one save of
  one record. The result is the UUID's text, or `""` and a wrapped error.
- **Storage writer** (`StreamUsecase.UploadFileAsStream`): a method with the
  source's loop.
  - It takes the writer's `select` cases as a sequence of events: a chunk, a
    value on the control channel, a cancelled context, or the inactivity
    timer.
  - It logs the file-system calls it makes and the one error it may send.
  - It is proved equal to the declarative `WriterSpec`.
- **Ingest coordinator** (`StreamService.Upload`): a method with the
  source's loop.
  - It takes the results of successive `Recv` calls and the outcomes of the
    non-blocking poll of the control channel.
  - It records its effects: the registration, the writer's start, each send,
    the reply and the context's cancellation.
  - It is proved equal to the declarative `UploadSpec`.
- **Properties** are lemmas about those two spec functions
  (`StreamUsecaseProperties`, `StreamServiceProperties`).
- **End to end**, `UploadPipeline.CompleteUpload` feeds the coordinator's
  sends to the writer. It shows that a complete upload stores exactly the
  chunks, in order, at `./uploads/<id>/<id>` and replies with that id.

Collaborators are inputs:

- the repository's save is a function from the record to its error;
- the file system is a `FileSystem` value fixing the outcome of `MkdirAll`,
  `Create` and each `Write`;
- `uuid.New()` and `time.Now()` are parameters;
- the transport is a sequence of `Recv` results.

Go errors are values (`Errors.Error`):

- `io.EOF`;
- a collaborator's error, with its own message;
- an error made by `fmt.Errorf` with `%w`, which keeps its cause.

Files:

| file | module | contents |
|---|---|---|
| base.dfy | `Base` | bytes, `Option`, concatenation |
| errors.dfy | `Errors` | error values, `Error()`, `errors.Unwrap`, `%w` wrapping |
| uuid.dfy | `Uuids` | 16-byte UUIDs, their canonical 36-character text and its parser |
| usecase.dfy | `StreamUsecase` | the constants, the path helpers, `UploadFileDetails`, `UploadFileAsStream` |
| usecase_lemmas.dfy | `StreamUsecaseProperties` | properties of the registrar, the paths and the writer |
| service.dfy | `StreamService` | the request frames, `Upload` |
| service_lemmas.dfy | `StreamServiceProperties` | properties of the coordinator |
| pipeline.dfy | `UploadPipeline` | the coordinator's sends as the writer's events; the complete upload |

Where the documented design and the code differ, the model follows the code:

- `Upload` rejects a first frame only when it carries no file info. A name
  shorter than three characters or an empty content type is accepted,
  because the `validator` tags on the request type are never checked on
  this path.
- Failures are reported with the gRPC codes `InvalidArgument` and `Internal`.
  The messages are the exact texts the handler builds.
- A storage failure inside the writer reaches the client only if the
  handler's poll finds it before its next receive.

## Model

| member | source | states |
|---|---|---|
| `StreamUsecase.UploadFileDetails` | stream-service/pkg/usecase/stream.go:35-53 | Exactly one record is saved: the fresh UUID, the caller's name and content type unchanged, and the timestamp. The result is an error exactly when the save fails. On success the id is the UUID's 36-character text. On failure the id is `""` and the error unwraps to the repository's error, whose message ends the returned message. |
| `StreamUsecaseProperties.RegistrationSucceeds` | stream-service/pkg/usecase/stream.go:37-52 | When the save succeeds, one record with the caller's details is saved. The returned id is non-empty and parses back to the fresh UUID. |
| `Errors.Wrap` | stream-service/pkg/usecase/stream.go:49 | A `%w`-wrapped error unwraps to its cause, its message ends with the cause's message, and it is never `io.EOF`. |
| `Uuids.ToString` | stream-service/pkg/usecase/stream.go:52 | A UUID's text has 36 characters, with dashes at positions 8, 13, 18 and 23. |
| `Uuids.ParseToString` | stream-service/pkg/usecase/stream.go:52 | The id returned to the client parses back to the UUID saved with the record. |
| `Uuids.ToStringInjective` | stream-service/pkg/usecase/stream.go:52 | Two UUIDs have the same text exactly when they are equal. |
| `StreamUsecaseProperties.ArtifactLayout` | stream-service/pkg/usecase/stream.go:103-111 | The artifact of upload `id` is `./uploads/<id>/<id>`: the file `id` inside the folder `./uploads/<id>`. |
| `StreamUsecaseProperties.ArtifactIdInverse` | stream-service/pkg/usecase/stream.go:103-111 | `ArtifactId` recovers the id from a path exactly when the path is that id's artifact path (both directions). |
| `StreamUsecaseProperties.ArtifactPathInjective` | stream-service/pkg/usecase/stream.go:103-111 | Two ids share an artifact path exactly when they are equal. |
| `StreamUsecaseProperties.DistinctUploadsDistinctArtifacts` | stream-service/pkg/usecase/stream.go:103-111 | Uploads with distinct UUIDs never write to the same file. |
| `StreamUsecase.StopIndex` | stream-service/pkg/usecase/stream.go:76-84 | The writer's loop stops at the first event that is not a chunk, or not a chunk whose write succeeded. Every earlier event is such a chunk. |
| `StreamUsecase.UploadFileAsStream` | stream-service/pkg/usecase/stream.go:55-100 | The method's file-system calls, reported error, exit and number of events taken are exactly those of `WriterSpec`. In order: `MkdirAll`, `Create`, one `Write` per chunk until the loop stops, and the deferred `Close` once the file exists. |
| `StreamUsecaseProperties.CreationFailure` | stream-service/pkg/usecase/stream.go:58-71 | A failed `MkdirAll` reports its wrapped cause and calls nothing further. A failed `Create` reports its wrapped cause and never writes or closes. Neither takes an event. |
| `StreamUsecaseProperties.CloseOnEveryExit` | stream-service/pkg/usecase/stream.go:72-99 | `Close` is called exactly when `Create` succeeded. It is called then exactly once, as the last call, after `MkdirAll` and `Create` on the upload's two paths. |
| `StreamUsecaseProperties.WritesFollowArrival` | stream-service/pkg/usecase/stream.go:76-84 | The written payloads are exactly the chunks among the events the writer took, each once, in arrival order. |
| `StreamUsecaseProperties.NoWriteAfterFailure` | stream-service/pkg/usecase/stream.go:80-83 | If write `j` fails, at most `j + 1` writes happen. |
| `StreamUsecaseProperties.WriteFailureEndsLoop` | stream-service/pkg/usecase/stream.go:76-83 | When the writer ends on a failed write, every earlier event was a chunk whose write succeeded. The last event taken is the failed chunk. The error sent is that write's cause, wrapped. The chunk's `Write` is followed only by `Close`. |
| `StreamUsecaseProperties.WriteFailureReported` | stream-service/pkg/usecase/stream.go:76-83 | Suppose the folder and file exist and the first `j` events are chunks whose writes succeed. If event `j` is a chunk whose write fails, the writer exits on the write failure and sends that failure, wrapped. It has taken exactly `j + 1` events, and it writes that chunk, then closes. |
| `StreamUsecaseProperties.SilentStop` | stream-service/pkg/usecase/stream.go:85-97 | With the same successful prefix, suppose event `j` is not a chunk. The writer then sends no error and has taken exactly `j + 1` events. Its exit follows the event: `io.EOF` completes, another control value is a client abort, then cancellation and the timer. It closes the file last. |
| `StreamUsecaseProperties.EventsRunOut` | stream-service/pkg/usecase/stream.go:76-97 | Suppose every event is a chunk whose write succeeds. The writer then takes them all and ends on the timer, with no error. |
| `StreamUsecaseProperties.ReportsOnlyStorageFailures` | stream-service/pkg/usecase/stream.go:60-97 | The writer sends an error if and only if a file-system call failed: `MkdirAll`, `Create`, or the write of a chunk it took. It also sends an error if and only if it exits on one of those three failures. EOF, a client abort, cancellation and the timeout end it silently. |
| `StreamUsecaseProperties.SilentExitCause` | stream-service/pkg/usecase/stream.go:85-97 | For each silent exit, the event that caused it: `io.EOF`, another control value, the cancelled context, or the timer. Every earlier event was a chunk. |
| `StreamUsecaseProperties.StopAtEof` | stream-service/pkg/usecase/stream.go:76-89 | Chunks whose writes succeed, followed by `io.EOF`, keep the loop going up to the EOF, where it closes and reports nothing. Later events are never taken. |
| `StreamUsecaseProperties.ChunksThenEof` | stream-service/pkg/usecase/stream.go:76-89 | N chunks then `io.EOF`, with every write succeeding, give exactly N writes carrying those chunks in order. They also give one `Close`, no reported error and N + 1 events taken. |
| `StreamService.LastRound` | stream-service/pkg/api/service/stream.go:61-88 | The handler's loop returns in the first round where the poll finds a writer error or the receive does not return a request. Every earlier round relayed one frame. |
| `StreamService.Upload` | stream-service/pkg/api/service/stream.go:26-89 | The method's effects and result are exactly those of `UploadSpec`: the details frame, the registration, the writer's start, the relaying loop and the exit of its last round. |
| `StreamServiceProperties.FirstRecvFails` | stream-service/pkg/api/service/stream.go:29-33 | A failed first receive returns `InvalidArgument` with the transport's message. Nothing else happens. |
| `StreamServiceProperties.InfoRequiredFirst` | stream-service/pkg/api/service/stream.go:35-38 | An empty request or a data frame first returns `InvalidArgument`. No details are registered and no writer is started. |
| `StreamServiceProperties.DetailsRegisteredOnce` | stream-service/pkg/api/service/stream.go:40-50 | `UploadFileDetails` is called exactly when the first frame carries the info. It is then called exactly once, first, with that info's name and content type. |
| `StreamServiceProperties.DetailsFailure` | stream-service/pkg/api/service/stream.go:50-53 | A failed registration returns `Internal` with the registrar's message and cancels the context. The writer is never started. |
| `StreamServiceProperties.WriterStartedOnce` | stream-service/pkg/api/service/stream.go:50-58 | The writer is started exactly when the details were saved. It is then started exactly once, right after the registration, with the registrar's id. |
| `StreamServiceProperties.RelaysInOrder` | stream-service/pkg/api/service/stream.go:61-86 | The payloads sent to the writer are those of the frames after the first, one per frame, in receipt order. A frame without data sends an empty payload. Every send comes after the registration and the start. |
| `StreamServiceProperties.NoRelayWithoutWriter` | stream-service/pkg/api/service/stream.go:50-58 | Without a started writer, nothing is sent on its data or control channel. |
| `StreamServiceProperties.ReplyOnlyOnEof` | stream-service/pkg/api/service/stream.go:69-78 | The handler replies exactly when the writer was started, no writer error was pending, and the receive after the relayed frames returned `io.EOF`. The reply carries the registrar's id, and the EOF is sent to the writer before it. |
| `StreamServiceProperties.ErrorMapping` | stream-service/pkg/api/service/stream.go:64-81 | After the writer starts, the result is `Internal` exactly when the poll found a writer error, with that error's message. It is `InvalidArgument` exactly when a receive failed with an error other than `io.EOF`, with the transport's message. |
| `StreamServiceProperties.CancelOnEveryReturn` | stream-service/pkg/api/service/stream.go:46-47 | Once the context exists, every return cancels it, exactly once and as the last effect. Only a receive that never returns leaves it uncancelled. |
| `StreamServiceProperties.CompleteStreamReplies` | stream-service/pkg/api/service/stream.go:61-78 | A complete stream, with the details saved and no writer error pending, gives exactly these effects and result: register, start, one send per chunk in order, EOF, reply with the id, cancel. |
| `UploadPipeline.CompleteStreamEvents` | stream-service/pkg/api/service/stream.go:74-85 | For a complete stream, the writer sees the chunks in order, then `io.EOF`, then the cancelled context. |
| `UploadPipeline.CompleteUpload` | stream-service/pkg/api/service/stream.go:46-85 | A complete upload with every collaborator succeeding gives these results. One record with the client's details is saved under the fresh UUID. The client gets that UUID's text. `./uploads/<id>/<id>` receives exactly the chunks in order, so its content is their concatenation. The writer completes on `io.EOF`, reports nothing, and closes the file once. |

## Left out

- Goroutine scheduling and real channel blocking. The two sides are
  connected only through the complete upload. Elsewhere the poll outcomes
  (`polls`) and the writer's events are independent inputs. Deadlock is not
  modelled; the code can deadlock in two ways:
  - a writer that has timed out or been cancelled leaves the handler's next
    `dataChan <-` or `errChan <- io.EOF` without a receiver;
  - a writer blocked sending its error can meet a handler blocked sending
    data.
- Real time. The five-second inactivity timer (`FuncMaxWaitSeconds`) is a
  `Timeout` event. A writer whose events run out is taken to time out.
- A `Recv` that never returns is the `Blocked` result. It has no effects
  after the last relayed frame and no cancellation.
- `uuid.New()` and `time.Now()` are parameters. The UUID's version and
  variant bits are not constrained.
- `log.Println` output.
- The file handler (stream-service/pkg/file/file_handler.go), the repository
  and the database connection are not part of this model beyond the outcomes
  their calls return. A `Write` either writes its whole buffer or fails; the
  byte count the source ignores is not modelled. The error of the deferred
  `Close` is discarded, as in the source.
- The context passed to `UploadFileDetails` and to the repository.
- An info frame whose `FileMetaData` pointer is nil. The model's info frame
  always carries its metadata.
- The HTTP gateway, its gRPC client, configuration and dependency wiring.

- `UploadPipeline.CompleteUpload`: covers only the run in which every
  collaborator succeeds. Runs where the writer fails while the handler is
  relaying would need the scheduling left out above.
