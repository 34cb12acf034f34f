# Datadog agent: log payload compression and the Windows service handler

This project models two small pieces of the Datadog agent and proves properties of the models.

**Payload compression** (`HttpCompression`, in `compression.dfy`). The logs HTTP client compresses each outbound payload with a strategy that has two operations, `compress` and `setHeader`. There are two strategies:

- `NoCompression` returns the payload unchanged and leaves the header alone.
- `GzipCompression(level)` is built by `NewGzipCompression`, which clamps the level into `[NoCompression, BestCompression]` = `[0, 9]`. Its `compress` runs four steps: create a gzip writer over a fresh buffer, Write, Flush, Close. It returns the buffer's bytes only when all four succeed. Otherwise it returns the error of the first step that failed. Its `setHeader` sets `Content-Encoding` to `gzip`.

The gzip byte format (RFC 1952 over DEFLATE, RFC 1951) is not reimplemented. It is a `Codec` value: an encoder at a level and a decoder. The round-trip law is the predicate `RoundTrips(codec)`. Lemmas that need the law take it as a hypothesis. `Faults` says which of the four library steps fail. On top of that, writer creation fails when the level is outside the range the gzip library accepts (`HuffmanOnly`..`BestCompression`, that is -2..9). The HTTP header is a map from canonical key to a list of values.

**Service handler** (`Service`, in `service.dfy`). `myservice.Execute` adapts the Windows service control protocol to the agent's lifecycle. The model runs it sequentially. `Collaborators` says which of `ImportRegistryConfig`, `CheckAndUpgradeConfig` and `StartAgent` fail. The trace lists, in order, what the `select` loop receives: control requests and values on the Stopper channel.

Everything Execute does is one sequence of `Action`s:

- a status sent on `changes`;
- an event-log record (numeric ID only);
- a call into the agent or the config code.

This makes the order of effects something a lemma can state. `Run(env, trace)` specifies a whole run. `Execute` is proved to produce exactly that run. The lemmas prove the run's properties:

- StartPending comes first, before the config steps.
- A config failure only adds a warning.
- Running is reported with Stop and Shutdown accepted.
- Interrogate echoes the current status; an unknown code warns.
- The first Stop, Shutdown or Stopper ends the loop, and later events are ignored.
- Every run that returns ends with: shutdown record, StopPending, one StopAgent call, Stopped.
- A failed start sets errno to 1 and still ends in the shutdown tail.

A service is usually expected to report Stopped once per run and to write each record once. The model follows the code, which does not always do so:

- A failed start sends Stopped from the goroutine (cmd/agent/main_windows.go:73) and again in the shutdown tail (:113). `StartFailureStopsService` proves both are sent.
- Interrogate echoes the manager's CurrentStatus unchanged (:88-90). So an Interrogate whose CurrentStatus is Stopped also sends Stopped. `StoppedOnceOnSuccessfulStart` proves that, with a successful start and no such echo before the loop ends, Stopped is sent exactly once by a run that returns and never by one still waiting.
- A Shutdown request writes record 0x4000000d twice: in its own branch (:97) and after the loop (:109). `ShutdownRecordedTwice` proves this.

How the start goroutine is scheduled in the model:

- It calls StartAgent where it is launched, before Running is reported.
- If StartAgent fails, the goroutine does three things after the handler's own start record (0x40000003) and before the loop: it writes record 0xc000000B, sets errno to 1 and sends Stopped.
- The Stopper value it then raises is received at the first Stopper entry of the trace. If the trace has no Stopper entry, it is received right after the trace ends.
- If the start succeeds and no event in the trace ends the loop, the handler is still waiting. That run has `returned == false` and does not run the shutdown tail.

## Model

| member | source | states |
|---|---|---|
| `HttpCompression.Compression.Compress` | pkg/logs/client/http/compression.go:15-27 | the interface's `compress`: NoCompression returns exactly the payload and no error; gzip succeeds exactly when the level is accepted and no step fails; the result is `Compressed` |
| `HttpCompression.Compression.SetHeader` | pkg/logs/client/http/compression.go:29-73 | NoCompression leaves the header map unchanged; gzip replaces the values under Content-Encoding by exactly ["gzip"], whatever the level, and changes no other key |
| `HttpCompression.NewGzipCompression` | pkg/logs/client/http/compression.go:38-48 | the stored level is always in [0, 9]: below 0 becomes 0, above 9 becomes 9, in-range levels are kept |
| `HttpCompression.ClampIdempotent` | pkg/logs/client/http/compression.go:38-48 | clamping the stored level again yields the same strategy; an in-range level is stored unchanged |
| `HttpCompression.OutOfRangeLevelsClamp` | pkg/logs/client/http/compression.go:38-48 | a level below the range behaves exactly like level 0 (NoCompressionLevel, gzip.NoCompression, which still emits a gzip stream), one above it like BestCompression (9) |
| `HttpCompression.FirstFault` | pkg/logs/client/http/compression.go:50-67 | the pipeline has no failure exactly when the level is accepted and none of the four steps fails; an unaccepted level fails at writer creation |
| `HttpCompression.GzipCompress` | pkg/logs/client/http/compression.go:50-69 | success exactly when no step fails; the buffer then holds the encoding of the payload at the level; otherwise the error is that of the first failing step |
| `HttpCompression.NewWriterLevel` | pkg/logs/client/http/compression.go:52-55 | writer creation refuses a level outside [-2, 9], otherwise fails only on an injected fault, and on success gives a fresh, empty writer over the buffer |
| `HttpCompression.GzipWriter.Write` | pkg/logs/client/http/compression.go:56-59 | Write reports the injected fault, or accepts the whole payload |
| `HttpCompression.GzipWriter.Flush` | pkg/logs/client/http/compression.go:60-63 | Flush reports the injected fault and changes nothing the model observes |
| `HttpCompression.GzipWriter.Close` | pkg/logs/client/http/compression.go:64-67 | on an open writer, Close reports the injected fault, or appends the complete stream for everything written to the buffer; on a closed writer it writes nothing and reports no error |
| `HttpCompression.Header.Set` | pkg/logs/client/http/compression.go:72 | header.Set replaces all values of the key by the one value, and Get returns it |
| `HttpCompression.NoCompressionIsIdentity` | pkg/logs/client/http/compression.go:25-27 | for every payload, no compression returns that payload with no error |
| `HttpCompression.ConstructedGzipStopsAtFirstFault` | pkg/logs/client/http/compression.go:50-69 | a strategy from NewGzipCompression never fails at the level check; it returns the encoding when no step fails, and otherwise the error of creation, Write, Flush or Close, whichever fails first |
| `HttpCompression.GzipRoundTrip` | pkg/logs/client/http/compression_test.go:34-67 | under the round-trip law, compressing at any level succeeds and decoding the result gives the payload back |
| `HttpCompression.NoCompressionScenario` | pkg/logs/client/http/compression_test.go:17-24 | "my payload" comes back unchanged with no error |
| `HttpCompression.NoCompressionHeaderScenario` | pkg/logs/client/http/compression_test.go:26-32 | an empty header still has an empty Content-Encoding after no compression's setHeader |
| `HttpCompression.GzipCompressionScenario` | pkg/logs/client/http/compression_test.go:34-44 | "my payload" compressed at BestCompression decodes to "my payload" |
| `HttpCompression.GzipCompressionHeaderScenario` | pkg/logs/client/http/compression_test.go:46-52 | after gzip's setHeader, Content-Encoding reads "gzip" |
| `Service.Execute` | cmd/agent/main_windows.go:55-115 | the results, the sequence of statuses, records and calls, the number of events consumed and whether it returns are exactly the run `Run` specifies |
| `Service.Initialise` | cmd/agent/main_windows.go:55-80 | the startup actions are `Startup(env)`; errno is 1 exactly when StartAgent fails, and Stopper is then raised |
| `Service.EventLoop` | cmd/agent/main_windows.go:83-108 | the loop reacts to every event before the first Stop, Shutdown or Stopper, consumes up to and including that event, writes its record, and reports whether it came |
| `Service.FirstExit` | cmd/agent/main_windows.go:83-108 | the index of the first event that ends the loop: every earlier event continues it |
| `Service.ReactionsOnlySendOrWarn` | cmd/agent/main_windows.go:86-102 | the loop's reactions only send statuses or write warning 0xc0000009 |
| `Service.LoopStep` | cmd/agent/main_windows.go:86-102 | an event that does not end the loop adds its reaction and the loop goes on with the rest of the trace |
| `Service.StartupContents` | cmd/agent/main_windows.go:57-80 | startup never calls StopAgent, never writes 0x4000000d, and reports Running |
| `Service.StartupEndsStopped` | cmd/agent/main_windows.go:68-75 | after a failed start, the goroutine's Stopped is the last startup action |
| `Service.StartPendingFirst` | cmd/agent/main_windows.go:57-66 | the first action is sending StartPending, then ImportRegistryConfig is called, then CheckAndUpgradeConfig |
| `Service.StartupConfigWarnings` | cmd/agent/main_windows.go:59-66 | a failed import or upgrade only inserts warning 0x80000001 or 0x80000002 after its step; nothing else in startup changes |
| `Service.ConfigFailuresOnlyWarn` | cmd/agent/main_windows.go:59-77 | config failures leave errno, ssec, consumption, return and every action after startup as in the run where both succeed; Running is still reported |
| `Service.RunningAcceptsStopAndShutdown` | cmd/agent/main_windows.go:56-77 | Running is sent with Accepts equal to the bitwise or of AcceptStop and AcceptShutdown (= 5) |
| `Service.InterrogateEchoes` | cmd/agent/main_windows.go:88-90 | Interrogate sends the request's CurrentStatus back and the run goes on as the run of the rest of the trace |
| `Service.UnexpectedRequestWarns` | cmd/agent/main_windows.go:99-102 | any other code writes warning 0xc0000009, sends no status, and the run goes on as the run of the rest of the trace |
| `Service.FirstExitEndsLoop` | cmd/agent/main_windows.go:91-105 | the first Stop, Shutdown or Stopper event is the last one consumed; replacing everything after it changes nothing in the run |
| `Service.ReturnsWhenStopped` | cmd/agent/main_windows.go:83-108 | the handler returns exactly when the trace holds an ending event or StartAgent failed |
| `Service.ShutdownTailCounts` | cmd/agent/main_windows.go:109-113 | the shutdown tail holds the 0x4000000d record, the StopAgent call and Stopped once each |
| `Service.LoopEndsWithShutdownTail` | cmd/agent/main_windows.go:109-113 | once the loop is left, the last four actions are 0x4000000d, StopPending, StopAgent, Stopped; StopAgent is called once if the loop is left and never otherwise |
| `Service.ShutdownTailAlways` | cmd/agent/main_windows.go:109-113 | every run that returns ends with 0x4000000d, StopPending, StopAgent, Stopped, in that order, and calls StopAgent exactly once; a run that has not returned never calls it |
| `Service.StartFailureStopsService` | cmd/agent/main_windows.go:68-75 | ssec is always false; errno is 1 if StartAgent fails and 0 otherwise; a failed start always returns and sends Stopped at two distinct points |
| `Service.StoppedOnceOnSuccessfulStart` | cmd/agent/main_windows.go:86-113 | with a successful start and no Interrogate echoing a Stopped status before the loop ends, Stopped is sent exactly once if the run returns and never otherwise |
| `Service.ShutdownRecordedTwice` | cmd/agent/main_windows.go:95-109 | when a Shutdown request ends the loop, record 0x4000000d is written exactly twice |

## Left out

- `main` (cmd/agent/main_windows.go:28-51) is left out. It does command-line dispatch, an interactive-session query and cobra command execution, all of which are OS and library I/O.
- `runService` (cmd/agent/main_windows.go:117-138) is left out. It opens the event log and calls `svc.Run`, which are foreign calls.
- Goroutines, channels and `select` are not modelled as concurrency. Their interleaving is an input trace. Nothing is proved about scheduling, blocking on a channel, or races between the goroutine and the loop.
- Service.Execute: the failing start goroutine gets one fixed schedule. Its StartAgent call comes before Running, and its reaction comes after record 0x40000003 and before the loop. Other interleavings of its status and record with the loop's are not covered.
- The internals of `app.StartAgent`, `app.StopAgent`, `common.ImportRegistryConfig` and `common.CheckAndUpgradeConfig` are left out. They are registry, config-file and agent-pipeline code. The model only records whether each one fails.
- The DEFLATE/gzip byte format and the internals of the `compress/gzip` writer are not modelled. They are an abstract `Codec`, and its round-trip law is a hypothesis.
- HttpCompression.GzipWriter.Flush: it writes nothing in the model. The complete stream appears at Close. How the real writer splits its output between Flush and Close is not modelled.
- The text of `log.*` and `elog.*` messages and of the errors is left out. Only the numeric event IDs and their order are kept.
- Header keys are taken to be canonical already, as `Content-Encoding` is. MIME header key canonicalisation is not part of this model.
- Go's distinction between a nil slice and an empty slice is not modelled. An error result carries no bytes.
- Service.Execute: Stopped is sent once per run only under a hypothesis. An Interrogate request echoes whatever CurrentStatus it carries, so the model does not rule out an echoed Stopped status.
- A nil `http.Header` is not modelled. Go's `Header.Set` panics on a nil map and `noCompression.setHeader` does not touch it. The model's `Header` always holds a map.
