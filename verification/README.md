# Formal model of easymail's session, codec and text components

A Dafny model of the parts of the easymail server whose behaviour is hardest to see from any one
function, and proofs of what they guarantee. `dafny verify dfyconfig.toml` checks the whole project.

- **Session tracer** (`TraceProtocol`, `TraceSafety`, `TraceRuns`, `TraceOrder`, `TraceEnd`, `AsyncTracer`). Any number of
  goroutines call sessions; each call admits an event under the session's mutex, then sends it outside
  the mutex, or drops it when the queue is full; one worker hands queued events to all sinks; `Close`
  signals, waits for the worker to drain, and closes the sinks. `TraceProtocol` is a transition system
  whose steps are what one goroutine does between two points where another can run, so its runs are all
  interleavings. `AsyncTracer` holds the objects with their methods, each tied to that system: its view
  of the state is a reachable one, before and after.
- **JSON-lines sink** (`JsonlSink`, `JsonlRuns`). A class over an append-only file map, with the buffered
  writer spelled out, and whole runs of writes with failing opens and clocks that move backwards.
- **Dovecot auth session** (`DovecotAuth`, `DovecotRuns`, `DovecotClient`). A class that consumes the lines of one
  connection and records what it sends. Base64 decoding and the authenticator are parameters, and the
  latter's answer may differ from one line to the next. `DovecotRuns` and
  `DovecotClient` state what a client relies on without the server's own parsing.
- **Tokenizers** (`TokenizerBasic`, `TokenizerBasicLaws`, `TokenizerDefault`, `TokenizerDefaultLaws`,
  `ChainTokens`, `ChainText`, `TokenizerChain`). The loops that write delimited buffers and split them again,
  proved to give the tokens that a direct reading of the text gives.
- **Metric time buckets** (`MetricBuckets`, `KeyText` with the calendar, `Integers`), the **milter payload codec** (`MilterCodec`) and
  the **configuration tree** (`ConfigureTree`) over an abstract table.
- `GoStrings` models the functions of Go's strings package that these use, with the theorem they lean on:
  splitting undoes joining exactly when each separator is the first one found.

A source function that the model cuts into several methods keeps its branches and their order; the inner
methods are named after the part they stand for.

## What the proofs brought to light

Each of these is the behaviour of the code as it is and a theorem below, with the exact condition where there is one.

- `End` queues its event and sets its flag in two critical sections. Its event is the session's last one
  where no call overlaps `End` (`TraceEnd.EndIsLast`); while it is unsent another event can come behind it
  exactly when another call is sending too or a new one would still be admitted
  (`TraceEnd.EndFollowedExactly`, with a run in `TraceEnd.EndNotLastConcurrently`).
- After a failed open at a change of day the file sink's next write of that day goes through a nil writer,
  and so does every later one until the day changes (`JsonlRuns.PanicsExactly`,
  `JsonlRuns.StuckForTheDay`, `JsonlRuns.PanicsOnce`).
- Metric keys can outlive their timeout. They do not exactly for an interval of one unit, and for an
  interval that divides 60 minutes or 24 hours in a zone whose offset has no fraction of a unit or is, in
  whole units, no multiple of the interval (`MetricBuckets.KeysExpireExactly`). An interval of 0 panics.
- A refused login after an earlier successful one is answered FAIL with the earlier user still in the
  reply (`DovecotRuns.ReplyExactly`). A reply that quotes a tab does not read back at the client
  (`DovecotClient.ReplyReadsBackExactly`, `DovecotClient.TabbedCommand`).
- The unique index over name and parent does not bind roots, whose parent is NULL: a lookup that fails
  for another reason than absence makes a second root (`ConfigureTree.DuplicateRootExactly`, `ConfigureTree.TwoRoots`).
  Below the root the same failure makes the call fail (`ConfigureTree.CreateSucceedsExactly`).
- `CombineToken` returns one empty token for fewer than two words, and its last triple lacks a word and
  ends in a space (`TokenizerDefaultLaws.CombinedOfFew`, `TokenizerDefaultLaws.TripleWindow`).
- Only the first byte of a separator counts, so the full-width default separators never separate, and
  three Latin-1 letters do (`TokenizerBasicLaws.DefaultSeparators`).
- The chain tokenizer's fuzzy loop looks at two pieces and uses a third, which may be empty
  (`ChainTokens.GapsWithoutTriples`).

## Model

| member | source | states |
|---|---|---|
| `TraceSafety.StepKeepsShape` | internal/pkg/tracer/sessiontrace/async.go:51-95 | every step of every goroutine keeps the bounds: queue within QueueSize, sinks closed only after the worker returned, the drain loop only after the stop signal |
| `TraceSafety.StepKeepsFlow` | internal/pkg/tracer/sessiontrace/async.go:51-74 | every step keeps: what was enqueued is what all sinks got, then the event in the worker's hand, then the queue, in this order |
| `TraceSafety.StepKeepsConserved` | internal/pkg/tracer/sessiontrace/async.go:129-155 | every step keeps: the admitted events are, as a multiset, those in flight, dropped and enqueued |
| `TraceSafety.StepKeepsNumbered` | internal/pkg/tracer/sessiontrace/async.go:130-136 | every step keeps: a session's counter counts exactly its admitted events, numbered 1, 2, ... within its budget |
| `TraceSafety.ReachableInv` | internal/pkg/tracer/sessiontrace/async.go:51-155 | the four invariants hold in every state that any interleaving reaches |
| `TraceSafety.Conservation` | internal/pkg/tracer/sessiontrace/async.go:129-155 | in every reachable state a session's counter equals its events in flight + dropped + queued + in the worker's hand + delivered, never above MaxEventsPerSess; the queue never exceeds QueueSize |
| `TraceSafety.AdmittedOnce` | internal/pkg/tracer/sessiontrace/async.go:129-155 | no event is admitted, hence enqueued, dropped or delivered, twice |
| `TraceSafety.SinksAgree` | internal/pkg/tracer/sessiontrace/async.go:61-71 | between events all sinks' logs are equal; during one event earlier sinks lead later ones by exactly that event; every log is a duplicate-free prefix of the enqueue order |
| `TraceSafety.StopDelivers` | internal/pkg/tracer/sessiontrace/async.go:85-95 | whatever was enqueued before the stop signal has, once any sink is closed, been handed to every sink exactly once, first and in queue order |
| `TraceSafety.NoWriteAfterExit` | internal/pkg/tracer/sessiontrace/async.go:64-66 | after the worker returned, and so after any sink is closed, no run writes a sink again; events sent later stay in the queue |
| `TraceRuns.PotentialStep` | internal/pkg/tracer/sessiontrace/async.go:56-71 | each worker step uses up one unit of a measure made of queue, unsent events and unspent budgets; only a new session adds to it |
| `TraceRuns.WorkerStepsBounded` | internal/pkg/tracer/sessiontrace/async.go:56-67 | while sessions keep emitting, the worker takes at most as many steps as that measure, plus what new sessions add; when they are used up it has returned |
| `TraceRuns.DrainNeverStuck` | internal/pkg/tracer/sessiontrace/async.go:56-67 | after the stop signal the worker can always step until it has returned, so Close gets past its wait |
| `TraceOrder.EndedIsSilent` | internal/pkg/tracer/sessiontrace/async.go:122-136 | once End has set the flag, the session admits nothing more in any run, whoever calls it |
| `TraceOrder.RefusedIsSilent` | internal/pkg/tracer/sessiontrace/async.go:129-136 | a session that refuses, ended or out of budget, refuses in every run from there |
| `TraceOrder.AdmittedCalls` | internal/pkg/tracer/sessiontrace/async.go:110-136 | in every run a session's events are those of its first calls, in call order and numbered by it; only a session that refuses for good has calls left over |
| `TraceOrder.DeliveredCalls` | internal/pkg/tracer/sessiontrace/async.go:61-71 | in every run what a sink gets of a session are events of its calls, each naming its call by number |
| `TraceOrder.AdmittedReports` | internal/pkg/tracer/sessiontrace/async.go:110-146 | in every run the admitted events of a session report its first calls one for one: number, stage, and of an error its whole text up to 2048 characters or the first 2048 of it, of any other call none |
| `TraceOrder.DeliveredReports` | internal/pkg/tracer/sessiontrace/async.go:51-155 | every event enqueued, or handed to any sink, reports the call of its session that its number names, stage and error text included |
| `TraceOrder.StepInTurn` | internal/pkg/tracer/sessiontrace/async.go:122-155 | every step keeps the order of a session that one goroutine at a time calls |
| `TraceEnd.StepLeavesEnd` | internal/pkg/tracer/sessiontrace/async.go:122-155 | every step keeps what an End that no call overlaps relies on: it is pending alone, and its event follows all others |
| `TraceEnd.EndIsLast` | internal/pkg/tracer/sessiontrace/async.go:122-127 | where no call of the session overlaps End, however the others overlap, End's event is the last one admitted, enqueued and delivered |
| `TraceEnd.SequentialOrder` | internal/pkg/tracer/sessiontrace/async.go:110-136 | for a session called by one goroutine at a time each sink gets a subsequence of the run's calls in call order, and End's event comes last |
| `TraceEnd.EndFollowedExactly` | internal/pkg/tracer/sessiontrace/async.go:122-155 | End's event, unsent while the worker lives, can be followed by another of its session exactly when another call is sending too or a new one would still be admitted |
| `TraceEnd.EndNotLastConcurrently` | internal/pkg/tracer/sessiontrace/async.go:122-127 | a run in which a second goroutine is admitted between End's two critical sections and its event is delivered after End's |
| `AsyncTracer.WithDefaults` | internal/pkg/tracer/sessiontrace/async.go:27-40 | a disabled tracer or one without sinks does nothing; otherwise the limits are positive: the given ones, or 4096 queued events and 500 a session |
| `AsyncTracer.EmitAloneEffect` | internal/pkg/tracer/sessiontrace/async.go:129-155 | what an uninterrupted emit does, whatever other calls are pending: refused at the budget or after the end, else counted and queued, or dropped at a full queue; other sessions and the worker stay as they are |
| `AsyncTracer.WorkerAtWork` | internal/pkg/tracer/sessiontrace/async.go:51-74 | before the stop signal the worker is at its select or handing out an event, and no sink is closed |
| `AsyncTracer.AsyncTracer.constructor` | internal/pkg/tracer/sessiontrace/async.go:40-48 | a new tracer is the start state of the transition system |
| `AsyncTracer.AsyncTracer.HandToSinks` | internal/pkg/tracer/sessiontrace/async.go:61-63 | the inner loop, from whichever sink it has come to, appends its event to that sink's log and all later ones, and changes nothing callers see |
| `AsyncTracer.AsyncTracer.ReceiveOne` | internal/pkg/tracer/sessiontrace/async.go:68-71 | a receive hands the oldest queued event to every sink, with the stop signal given or not |
| `AsyncTracer.AsyncTracer.Drain` | internal/pkg/tracer/sessiontrace/async.go:56-67 | the drain loop ends, with the queue emptied into every sink in order |
| `AsyncTracer.AsyncTracer.AwaitWorker` | internal/pkg/tracer/sessiontrace/async.go:51-74 | from the stop signal to its return the worker finishes the event in its hand and empties the queue into every sink |
| `AsyncTracer.AsyncTracer.CloseSinks` | internal/pkg/tracer/sessiontrace/async.go:89-93 | every sink is closed whatever errors come, the first error is returned, and nothing else changes |
| `AsyncTracer.AsyncTracer.Close` | internal/pkg/tracer/sessiontrace/async.go:85-95 | whatever the worker is doing: after Close every sink holds its log, the event still due to it and the queue, which is all that was ever enqueued; sessions stay as they are; the first error of closing is returned; a second Close changes nothing and reports the panic |
| `AsyncTracer.AsyncSession.constructor` | internal/pkg/tracer/sessiontrace/async.go:76-83 | a new session has spent nothing and is not ended |
| `AsyncTracer.AsyncSession.Emit` | internal/pkg/tracer/sessiontrace/async.go:110-155 | counter, queue and the histories of admitted, enqueued and dropped events after one emit; the event carries the call's stage and its error text, cut after 2048 characters; all other sessions stay as they are |
| `AsyncTracer.AsyncSession.End` | internal/pkg/tracer/sessiontrace/async.go:122-127 | End leaves the session ended, its event queued exactly when budget and queue allow, and the queue otherwise as it was |
| `JsonlSink.PathForInjective` | internal/pkg/tracer/sessiontrace/filejsonl/sink.go:80-86 | different days have different files |
| `JsonlSink.DatedName` | internal/pkg/tracer/sessiontrace/filejsonl/sink.go:80-86 | a rotated file's name is the path with an underscore and the day in front of its extension, which starts at the last dot of the last path element |
| `JsonlSink.Sink.New` | internal/pkg/tracer/sessiontrace/filejsonl/sink.go:31-43 | a sink with today's file open, or none and no file touched when the open fails |
| `JsonlSink.Sink.OpenLocked` | internal/pkg/tracer/sessiontrace/filejsonl/sink.go:79-100 | opening keeps a file's content; the day key moves even when the open fails |
| `JsonlSink.Sink.BufferedWrite` | internal/pkg/tracer/sessiontrace/filejsonl/sink.go:64-64 | a buffered write loses nothing: file and buffer together grow by exactly the bytes written, for records of any size |
| `JsonlSink.Sink.WriteRecord` | internal/pkg/tracer/sessiontrace/filejsonl/sink.go:64-70 | after a record its file has grown by record and newline, and the buffer is empty |
| `JsonlSink.Sink.CloseLocked` | internal/pkg/tracer/sessiontrace/filejsonl/sink.go:102-113 | closing leaves every file as it is |
| `JsonlSink.Sink.Write` | internal/pkg/tracer/sessiontrace/filejsonl/sink.go:45-71 | a write returns without error, fails or panics exactly as its specification says; a panic leaves everything as it was, and no file but the day's is touched |
| `JsonlRuns.WriteEffect` | internal/pkg/tracer/sessiontrace/filejsonl/sink.go:45-71 | a write adds its record to the file of its own day, exactly when it returns without error, and nothing to any other |
| `JsonlRuns.FileContents` | internal/pkg/tracer/sessiontrace/filejsonl/sink.go:45-71 | over any run, failing opens and backward clocks included, a file holds what it held and then the records of exactly its days' successful writes, in order; the open file is the one the day key names |
| `JsonlRuns.DayFiles` | internal/pkg/tracer/sessiontrace/filejsonl/sink.go:45-71 | with opens succeeding nothing panics, and each day's file gains exactly that day's records in order |
| `JsonlRuns.LinesReadBack` | internal/pkg/tracer/sessiontrace/filejsonl/sink.go:60-70 | cutting a day's file at its newlines gives the day's records back exactly when no record holds a newline |
| `JsonlRuns.WriterNil` | internal/pkg/tracer/sessiontrace/filejsonl/sink.go:79-113 | the writer is nil exactly when the last change of day could not open its file |
| `JsonlRuns.PanicsExactly` | internal/pkg/tracer/sessiontrace/filejsonl/sink.go:50-66 | a write panics exactly when its event marshals, its day is that of the write before, and that day's open had failed |
| `JsonlRuns.StuckForTheDay` | internal/pkg/tracer/sessiontrace/filejsonl/sink.go:50-66 | without a writer every write of the rest of the day panics, or fails to marshal, and changes nothing |
| `JsonlRuns.PanicsOnce` | internal/pkg/tracer/sessiontrace/filejsonl/sink.go:50-66 | such a run: an open fails at a change of day and the next event of that day panics |
| `MilterCodec.DecodeEncoded` | internal/app/service/milter/cstrings.go:12-17 | decoding an encoded NUL-free list gives the list without the empty strings at its ends, or one empty string |
| `MilterCodec.CStringsRoundTrip` | internal/app/service/milter/cstrings.go:12-17 | a list survives encoding and decoding exactly when it is NUL-free and has at most one string or non-empty ones at both ends |
| `MilterCodec.ReadCStringExact` | internal/app/service/milter/cstrings.go:20-26 | reading one terminated string gives it back exactly when it holds no NUL |
| `MilterCodec.CrlfDeletesExactly` | internal/app/service/milter/modifier.go:13-15 | the conversion deletes exactly the CR bytes before an LF and keeps the rest in order |
| `MilterCodec.CrlfByBytes` | internal/app/service/milter/modifier.go:13-15 | by byte values and places: what is left is every byte but a 13 in front of a 10, in order |
| `MilterCodec.CrlfFreeExactly` | internal/app/service/milter/modifier.go:13-15 | the result holds a CRLF exactly when the input holds CR CR LF |
| `MilterCodec.CrlfIdempotentExactly` | internal/app/service/milter/modifier.go:13-15 | converting twice is converting once exactly when the input holds no CR CR LF |
| `MilterCodec.CrlfDistributesExactly` | internal/app/service/milter/modifier.go:13-15 | converting chunk by chunk is converting the whole exactly when no chunk boundary parts a CR from its LF |
| `MilterCodec.BigEndianReadsBack` | internal/app/service/milter/modifier.go:62-62 | the four index bytes read back the index exactly from 0 to 2^32 - 1, and its low 32 bits otherwise |
| `MilterCodec.HeaderDecodes` | internal/app/service/milter/modifier.go:45-51 | a header payload decodes to name and converted value exactly when both are non-empty and NUL-free |
| `MilterCodec.IndexedHeaderDecodes` | internal/app/service/milter/modifier.go:60-81 | index, name and converted value come back exactly for a 32-bit index and non-empty NUL-free texts |
| `MilterCodec.HeaderReadsExactly` | internal/app/service/milter/modifier.go:45-51 | a header payload is two terminated strings and nothing else; reading up to the terminators gives name and converted value exactly when both are NUL-free, empty or not |
| `MilterCodec.IndexedHeaderReads` | internal/app/service/milter/modifier.go:60-81 | behind the four index bytes the same |
| `MilterCodec.Modifier.AddRecipient` | internal/app/service/milter/modifier.go:27-30 | the packet reads back as the address in angle brackets exactly when it holds no NUL |
| `MilterCodec.Modifier.DeleteRecipient` | internal/app/service/milter/modifier.go:33-36 | the packet reads back as the address in angle brackets exactly when it holds no NUL |
| `MilterCodec.Modifier.ReplaceBody` | internal/app/service/milter/modifier.go:39-42 | one packet with the body less the CR bytes before an LF |
| `MilterCodec.Modifier.AddHeader` | internal/app/service/milter/modifier.go:45-51 | one packet with name, converted value and a zero byte after each, which read back by terminators as HeaderReadsExactly says |
| `MilterCodec.Modifier.ChangeHeader` | internal/app/service/milter/modifier.go:60-69 | one packet with the index on four bytes, name, converted value and a zero byte after each of the two, which read back by terminators |
| `MilterCodec.Modifier.InsertHeader` | internal/app/service/milter/modifier.go:72-81 | the same under its own code |
| `MetricBuckets.KeyInUnits` | internal/app/domain/model/filter.go:452-468 | rounding up on the clock field and truncating absolute time, in any zone, come to whole-unit arithmetic with one borrow |
| `MetricBuckets.SameKeyIsSameWindow` | internal/app/domain/model/filter.go:452-468 | for an interval dividing 60 minutes or 24 hours, two instants share a key exactly when they lie in the same rounded-up window |
| `MetricBuckets.KeyInWindow` | internal/app/domain/model/filter.go:452-468 | which time such a key holds: the one in the instant's rounded-up window that lies as far from a multiple of the interval as the zone's offset |
| `MetricBuckets.KeyShowsWindowEnd` | internal/app/domain/model/filter.go:452-468 | in nanoseconds, for an offset that is a multiple of the interval: the first multiple of the interval that is not before the instant's minute or hour |
| `MetricBuckets.BucketNear` | internal/app/domain/model/filter.go:452-468 | for every interval and zone the bucket is less than one interval from the instant |
| `MetricBuckets.ZonesExactly` | internal/app/domain/model/filter.go:452-468 | the zones in which such keys never outlive their timeout: those of whole units, and those whose whole-unit part is no multiple of the interval |
| `MetricBuckets.FractionalZoneOutlives` | internal/app/domain/model/filter.go:461-468 | in any other zone two instants one interval or more apart share a key |
| `MetricBuckets.IntervalsExactly` | internal/app/domain/model/filter.go:452-468 | the intervals whose keys never outlive their timeout in whole-unit zones are exactly the divisors of 60 and of 24 |
| `MetricBuckets.KeysExpireExactly` | internal/app/domain/model/filter.go:452-468 | for every interval in every zone: keys never outlive the timeout exactly for an interval of one unit, and for one dividing 60 minutes or 24 hours in a zone of whole units or whose whole-unit part is no multiple of the interval |
| `MetricBuckets.TimeoutExactly` | internal/app/domain/model/filter.go:509-543 | the same for metrics: which metrics and zones make the timeout cover every key's window |
| `MetricBuckets.KeysAgreeExactly` | internal/app/domain/model/filter.go:509-515 | two metrics of equal dividing interval write the same key exactly when name, unit and window agree, although the key is just name, colon and digits |
| `MetricBuckets.UnitsKeepApart` | internal/app/domain/model/filter.go:509-515 | a minute key never equals an hour key, being two digits longer in years of four digits |
| `MetricBuckets.KeysOfOneClock` | internal/app/domain/model/filter.go:509-515 | for any intervals and names, colons included, two keys of one unit agree exactly when names and printed times do |
| `MetricBuckets.KeyShows` | internal/app/domain/model/filter.go:452-515 | in years of four digits a key is the name, a colon and year, month, day and hour of its time in this order, and the minute for a metric by minutes |
| `KeyText.HourReads` | internal/app/domain/model/filter.go:467-467 | the printed hour's ten digits read as year, month, day and hour of the time |
| `KeyText.MinuteReads` | internal/app/domain/model/filter.go:458-458 | and two more as its minute |
| `KeyText.DateFound` | internal/app/domain/model/filter.go:452-468 | year, month and day that are printed are those of the Gregorian date: it is found again from its day number, over all years |
| `KeyText.EveryDay` | internal/app/domain/model/filter.go:452-468 | and every day number is that of a date |
| `KeyText.MinuteTextInjective` | internal/app/domain/model/filter.go:458-458 | the printed minute determines the minute, over the whole calendar |
| `KeyText.HourTextInjective` | internal/app/domain/model/filter.go:467-467 | the printed hour determines the hour |
| `KeyText.MinuteTextForm` | internal/app/domain/model/filter.go:458-458 | a printed minute holds no colon and has twelve characters in years of four digits |
| `KeyText.HourTextForm` | internal/app/domain/model/filter.go:467-467 | a printed hour holds no colon and has ten |
| `MetricBuckets.KeyWithinTimeout` | internal/app/domain/model/filter.go:509-543 | events counted under one key are closer than the timeout the metric gives it |
| `MetricBuckets.HalfHourZone` | internal/app/domain/model/filter.go:461-468 | two instants in a half-hour zone that share an hourly key for longer than its timeout |
| `ConfigureTree.Configures.GetConfigureByName` | internal/app/domain/model/configure.go:46-63 | a row with that name and that parent, none for parent 0, and of lowest id; no row only where the lookup fails or the table has none such |
| `ConfigureTree.Configures.GetConfigureByNames` | internal/app/domain/model/configure.go:100-112 | the row at the end of the path, an error when a step is missing or its lookup fails, no row and no error for an empty path |
| `ConfigureTree.Configures.CreateRoot` | internal/app/domain/model/configure.go:65-73 | one more row without parent, whatever roots there are |
| `ConfigureTree.Configures.CreateNode` | internal/app/domain/model/configure.go:75-98 | the new row, added to the table, unless its parent has one of that name; an id is used up either way |
| `ConfigureTree.Configures.CreateConfigure` | internal/app/domain/model/configure.go:114-158 | the table and result of one call, with any of its nine database operations failing |
| `ConfigureTree.CreateKeeps` | internal/app/domain/model/configure.go:114-158 | whatever fails: rows are neither changed nor removed, ids grow, names under a parent stay unique, and a returned row is what the whole path now finds |
| `ConfigureTree.CreateReliably` | internal/app/domain/model/configure.go:114-158 | with a database that answers: a repeat changes nothing and returns the node, any other path gets a new row with the name, value, type and description given |
| `ConfigureTree.CreatedOnFields` | internal/app/domain/model/configure.go:114-158 | whatever fails, a returned row has the path's last name, its parent the middle one, and that one's parent, a root, the first |
| `ConfigureTree.AddedOnFields` | internal/app/domain/model/configure.go:65-158 | the rows a call adds, whatever fails: at most one a level, those of the upper levels with data type 5 and no value, and the description on all but the root |
| `ConfigureTree.CreateSucceedsExactly` | internal/app/domain/model/configure.go:114-158 | which of the nine failures a call survives: it returns a row exactly when on each level the second lookup succeeds and either the first one finds the name or the insert succeeds, which below the root it does only where the name is missing |
| `ConfigureTree.PathOnFields` | internal/app/domain/model/configure.go:100-112 | a path that is found has its rows in the table: each carries its name and is the parent of the next |
| `ConfigureTree.LeadsFound` | internal/app/domain/model/configure.go:100-112 | and where roots have distinct names, a path whose rows are in the table is found |
| `ConfigureTree.CreatedStaysFound` | internal/app/domain/model/configure.go:100-158 | after a success the same path finds the same row, through any later calls and failures |
| `ConfigureTree.CreateAllKeeps` | internal/app/domain/model/configure.go:114-158 | the table invariant holds after any run of calls, whose rows extend those before |
| `ConfigureTree.WalkEndsAtRoot` | internal/app/domain/model/configure.go:114-158 | following parent ids from any row ends at a root within two steps, each to a smaller id |
| `ConfigureTree.DuplicateRootExactly` | internal/app/domain/model/configure.go:120-126 | a call doubles a root exactly when its first lookup fails although the root exists and the insert succeeds |
| `ConfigureTree.TwoRoots` | internal/app/domain/model/configure.go:120-126 | such a call, on the smallest tree |
| `DovecotAuth.Session.SendLine` | internal/app/service/dovecot/session.go:36-40 | one line, tab-joined, whether or not the write succeeds |
| `DovecotAuth.Session.SendData` | internal/app/service/dovecot/session.go:45-58 | one line with the verdict, the id and every entry of the data in some order |
| `DovecotAuth.Session.AwaitHandshake` | internal/app/service/dovecot/server.go:168-198 | reads up to the first CPID line, or stops at the first bad line |
| `DovecotAuth.Session.Greet` | internal/app/service/dovecot/server.go:207-224 | six lines in fixed order, cut off after the first that cannot be written |
| `DovecotAuth.Session.ReadParams` | internal/app/service/dovecot/server.go:255-263 | later parameters overwrite earlier ones; no '=' gives the empty value |
| `DovecotAuth.Session.Authenticate` | internal/app/service/dovecot/server.go:278-321 | the reply and the new state for a response text |
| `DovecotAuth.Session.HandleAuth` | internal/app/service/dovecot/server.go:247-321 | the reply and the new state for an AUTH line with enough arguments |
| `DovecotAuth.Session.HandleLine` | internal/app/service/dovecot/server.go:229-321 | the reply, if any, and the new state for one line |
| `DovecotAuth.Session.AuthLoop` | internal/app/service/dovecot/server.go:227-330 | over all lines, what is sent renders the replies to the verdicts, in order |
| `DovecotAuth.Session.Handle` | internal/app/service/dovecot/server.go:164-331 | the output of a connection: nothing, or a prefix of the greeting up to a failed write, or the greeting and then the replies |
| `DovecotRuns.HandshakeExactly` | internal/app/service/dovecot/server.go:168-198 | the greeting is reached exactly after a CPID line preceded only by lines of two fields or more whose VERSION lines have major 1 |
| `DovecotRuns.PlainExactly` | internal/app/service/dovecot/server.go:284-291 | the cut of the decoded response is the PLAIN message of section 2 of RFC 4616, with any password |
| `DovecotRuns.ParamExactly` | internal/app/service/dovecot/server.go:255-263 | a parameter's value is that of its last assignment among the arguments |
| `DovecotRuns.LoginExactly` | internal/app/service/dovecot/server.go:229-321 | a line is a login exactly when its own fields, parameters and PLAIN message are accepted |
| `DovecotRuns.LoginRoundTrip` | internal/app/service/dovecot/server.go:230-291 | an AUTH line built from id, service, authzid, user and password is read back as these, '=' signs included |
| `DovecotRuns.AnsweredExactly` | internal/app/service/dovecot/server.go:228-321 | every line gets one reply except non-AUTH lines of three fields or more; it is OK exactly when the line is a login by itself |
| `DovecotRuns.StateCarried` | internal/app/service/dovecot/server.go:227-321 | the data's keys stay within error and user; a user is there exactly after a login and is the latest accepted one; the id is that of the latest AUTH line with enough arguments |
| `DovecotRuns.ReplyExactly` | internal/app/service/dovecot/server.go:227-321 | an OK carries just its line's user; a FAIL carries an error, and the earlier user if there was a login; both carry the latest id |
| `DovecotRuns.TranscriptExactly` | internal/app/service/dovecot/server.go:227-330 | the transcript has one line per answered input line, each in its place and OK exactly for a login |
| `DovecotRuns.FailsExactly` | internal/app/service/dovecot/server.go:229-321 | the error of a refusal is that of the line itself: its field count, mechanism, parameters, decoding, PLAIN form or credentials, whichever fails first |
| `DovecotClient.GreetedExactly` | internal/app/service/dovecot/server.go:164-224 | something is sent, and the greeting first, exactly when a CPID line follows passing lines only and no read error came before |
| `DovecotClient.ConnectionExactly` | internal/app/service/dovecot/server.go:164-331 | a served connection told from its input lines alone: which lines are answered and where, OK exactly for a login, with the id, user and error that the lines so far determine |
| `DovecotClient.ReplyReadsBackExactly` | internal/app/service/dovecot/session.go:36-58 | a reply cut at its tabs gives verdict, id and data back exactly when none of them holds a tab, and no key an equals sign |
| `DovecotClient.StreamReadsBackExactly` | internal/app/service/dovecot/session.go:36-40 | the stream cut at its newlines gives the lines back exactly when no line holds another newline |
| `DovecotClient.TabbedCommand` | internal/app/service/dovecot/server.go:231-235 | a line of two fields is refused with an error that quotes its tab, so that the reply does not read back |
| `TokenizerBasic.TokenizerBasic.constructor` | internal/pkg/utils/preprocessing/tokenizerBasic.go:16-31 | the separators are the first bytes of the strings given, or of the default ones |
| `TokenizerBasic.TokenizerBasic.Mark` | internal/pkg/utils/preprocessing/tokenizerBasic.go:42-60 | the loop marks exactly separators, high runes and the runes after high ones |
| `TokenizerBasic.TokenizerBasic.CutRunes` | internal/pkg/utils/preprocessing/tokenizerBasic.go:62-87 | the loop over the marks appends exactly the tokens of the direct definition |
| `TokenizerBasic.TokenizerBasic.Cut` | internal/pkg/utils/preprocessing/tokenizerBasic.go:37-88 | the tokens are those of the text without byte order marks |
| `TokenizerBasicLaws.CutIsTheMaximalSegmentation` | internal/pkg/utils/preprocessing/tokenizerBasic.go:37-88 | the tokens are the texts of the one maximal segmentation: pieces without separators, high runes alone, low neighbours never parted, only separators between |
| `TokenizerBasicLaws.TokensKeepTheText` | internal/pkg/utils/preprocessing/tokenizerBasic.go:37-88 | put together, the tokens are the text less its separators |
| `TokenizerBasicLaws.CutAtSeparator` | internal/pkg/utils/preprocessing/tokenizerBasic.go:37-88 | cutting two texts joined by a separator is cutting each |
| `TokenizerBasicLaws.HighRunesNeverSeparate` | internal/pkg/utils/preprocessing/tokenizerBasic.go:22-24 | a rune above 255 is a token of its own between separately cut texts, listed as a separator or not, unless it is a byte order mark, which goes |
| `TokenizerBasicLaws.FirstByteLeads` | internal/pkg/utils/preprocessing/tokenizerBasic.go:22-24 | what a separator string stands for: the rune itself in ASCII, and otherwise the byte with the upper bits of its code point |
| `TokenizerBasicLaws.DefaultSeparators` | internal/pkg/utils/preprocessing/tokenizerBasic.go:19-24 | the default separators are exactly twenty ASCII characters and, in place of the full-width ones, three Latin-1 letters |
| `TokenizerDefault.WriteWindow` | internal/pkg/utils/preprocessing/tokenizerDefault.go:102-115 | the inner loop writes the shown words with spacers, and one more spacer when words are missing |
| `TokenizerDefault.CombineToken` | internal/pkg/utils/preprocessing/tokenizerDefault.go:99-122 | what is returned is the split of the windows joined by "&&", or one empty token for fewer than two words |
| `TokenizerDefaultLaws.CombinedExactly` | internal/pkg/utils/preprocessing/tokenizerDefault.go:99-122 | the windows come back exactly when none holds "&&" and none but the last ends in '&'; no character is lost in any case |
| `TokenizerDefaultLaws.CombinedOfWords` | internal/pkg/utils/preprocessing/tokenizerDefault.go:99-122 | with spaces, that is a condition on the shown words and on the last words of full windows, for any step |
| `TokenizerDefaultLaws.PairWindow` | internal/pkg/utils/preprocessing/tokenizerDefault.go:99-122 | a pair is two neighbours and a space, the mask playing no part |
| `TokenizerDefaultLaws.TripleWindow` | internal/pkg/utils/preprocessing/tokenizerDefault.go:99-122 | a triple is three neighbours, the middle one masked on request; the last one lacks its third word and ends in a space |
| `TokenizerDefaultLaws.PairsExactly` | internal/pkg/utils/preprocessing/tokenizerDefault.go:71-77 | the pairs Cut asks for come back exactly when no word holds "&&" and no inner one ends in '&' |
| `TokenizerDefaultLaws.TriplesExactly` | internal/pkg/utils/preprocessing/tokenizerDefault.go:78-84 | the triples come back exactly when no shown word holds "&&" and none from the third on ends in '&' |
| `TokenizerDefaultLaws.CombinedOfFew` | internal/pkg/utils/preprocessing/tokenizerDefault.go:99-122 | fewer than two words give the one empty token |
| `TokenizerDefault.TokenizerDefault.Words` | internal/pkg/utils/preprocessing/tokenizerDefault.go:43-69 | the words kept are the cleaned and admitted ones, in order |
| `TokenizerDefault.TokenizerDefault.Cut` | internal/pkg/utils/preprocessing/tokenizerDefault.go:41-94 | the blocks of pairs, triples and words in this order, each less its stop words |
| `TokenizerDefaultLaws.DataSound` | internal/pkg/utils/preprocessing/tokenizerDefault.go:44-67 | a kept word starts with an ASCII letter or a rune from 255 on, holds no line break and no excluded string, and comes from the segmenter |
| `TokenizerDefaultLaws.DataExactly` | internal/pkg/utils/preprocessing/tokenizerDefault.go:44-68 | every segmented word whose cleaned form starts with an ASCII letter or a rune from 255 on and holds no excluded string is kept, once, in its place, and no other |
| `TokenizerDefaultLaws.CleanedExactly` | internal/pkg/utils/preprocessing/tokenizerDefault.go:45-47 | a cleaned word is the word between its outer white space less its line breaks |
| `TokenizerDefaultLaws.SpacesExactly` | internal/pkg/utils/preprocessing/tokenizerDefault.go:45-45 | white space is the 25 code points of Unicode's list |
| `TokenizerDefaultLaws.SelectedBlocks` | internal/pkg/utils/preprocessing/tokenizerDefault.go:71-93 | a token is returned exactly when it is no stop word and in a block whose own flag is set |
| `TokenizerDefaultLaws.SelectedInOrder` | internal/pkg/utils/preprocessing/tokenizerDefault.go:71-93 | pairs come first, then triples, then words |
| `TokenizerChain.TokenizerChain.WriteSingles` | internal/pkg/utils/preprocessing/tokenizerChain.go:43-48 | every kept rune and a bar, in order |
| `TokenizerChain.TokenizerChain.WritePairs` | internal/pkg/utils/preprocessing/tokenizerChain.go:51-57 | every pair of neighbours and a bar |
| `TokenizerChain.TokenizerChain.WriteTriples` | internal/pkg/utils/preprocessing/tokenizerChain.go:60-66 | every triple and a bar |
| `TokenizerChain.TokenizerChain.WriteSkips` | internal/pkg/utils/preprocessing/tokenizerChain.go:69-76 | every triple with its middle rune masked and a bar |
| `TokenizerChain.TokenizerChain.GetMultibyte` | internal/pkg/utils/preprocessing/tokenizerChain.go:28-82 | through buffer, trim and split come back exactly the grams of the runes above 255 in order, or one empty token for none |
| `ChainTokens.SplitBars` | internal/pkg/utils/preprocessing/tokenizerChain.go:79-81 | grams without bars survive the buffer |
| `ChainTokens.MultibyteCounts` | internal/pkg/utils/preprocessing/tokenizerChain.go:43-76 | n positions with runes above 255 give n, n-1, n-2 and n-2 grams of the four kinds, never fewer than none, each kind on its own flag |
| `ChainText.WideOfText` | internal/pkg/utils/preprocessing/tokenizerChain.go:35-40 | the runes that grams are made of are those above 255, in the order of the text |
| `ChainText.MultibyteOfRunes` | internal/pkg/utils/preprocessing/tokenizerChain.go:43-76 | of these runes first each, then all neighbours, then all three in a row, then the threes with a star in the middle, each kind in order and on its own flag |
| `TokenizerChain.TokenizerChain.MaskRunes` | internal/pkg/utils/preprocessing/tokenizerChain.go:85-109 | letters below 255 are folded, every other rune is a bar |
| `TokenizerChain.TokenizerChain.TakeWords` | internal/pkg/utils/preprocessing/tokenizerChain.go:116-128 | pieces of 2 to 16 bytes that are no stop words, in lower case |
| `TokenizerChain.TokenizerChain.TakePairs` | internal/pkg/utils/preprocessing/tokenizerChain.go:130-137 | neighbouring pieces longer than a byte |
| `TokenizerChain.TokenizerChain.TakeTriples` | internal/pkg/utils/preprocessing/tokenizerChain.go:139-145 | three of them |
| `TokenizerChain.TokenizerChain.TakeGaps` | internal/pkg/utils/preprocessing/tokenizerChain.go:147-153 | two of them and whatever the third piece is |
| `TokenizerChain.TokenizerChain.TokenizeAscii` | internal/pkg/utils/preprocessing/tokenizerChain.go:85-156 | the blocks over the split pieces, each on its own flag |
| `ChainTokens.PiecesAreRuns` | internal/pkg/utils/preprocessing/tokenizerChain.go:111-114 | the pieces are the case-folded letter runs that lie one other rune apart, up to the last letter |
| `ChainTokens.TakeIsAt` | internal/pkg/utils/preprocessing/tokenizerChain.go:116-154 | what a loop takes at a piece is what the rule reads off the text at that position |
| `ChainTokens.AsciiIsSpelled` | internal/pkg/utils/preprocessing/tokenizerChain.go:85-156 | all blocks are those read off the text: runs, and runs with exactly one rune between them |
| `ChainTokens.CollectExactly` | internal/pkg/utils/preprocessing/tokenizerChain.go:116-154 | a block holds exactly the tokens of the positions where a run may start |
| `ChainTokens.GapsWithoutTriples` | internal/pkg/utils/preprocessing/tokenizerChain.go:147-153 | the fuzzy loop gives a token without a third run longer than a byte exactly where the triple loop gives none |
| `ChainTokens.AsciiIsLong` | internal/pkg/utils/preprocessing/tokenizerChain.go:161-165 | the length filter removes nothing: every token of the first half is longer than a byte |
| `ChainText.LettersExactly` | internal/pkg/utils/preprocessing/tokenizerChain.go:99-108 | the letters below 255 by code point, and their lower case |
| `ChainText.WordExactly` | internal/pkg/utils/preprocessing/tokenizerChain.go:116-128 | a word token is a maximal run of letters of 2 to 16 bytes in UTF-8, in lower case, and no stop word |
| `ChainText.TokenExactly` | internal/pkg/utils/preprocessing/tokenizerChain.go:116-154 | which token, if any, stands at a position, by code points alone: pairs and triples of maximal runs of two bytes or more with one rune between two, A to Z in lower case, and the masked form |
| `ChainText.SpelledOfText` | internal/pkg/utils/preprocessing/tokenizerChain.go:85-156 | words, then pairs, then triples, then masked triples, each kind on its own flag: one token for every position that has one, in the order of the text |
| `TokenizerChain.TokenizerChain.Cut` | internal/pkg/utils/preprocessing/tokenizerChain.go:158-176 | the tokens read off the text and then the grams that are no stop words, each flag adding its own block |

## Left out

- Session tracer: event fields, tags, timestamps and durations, on which nothing depends; error messages are kept, cut at 2048 bytes, which the model counts as characters.
- Session tracer: `MaxFieldValueBytes` and `FlushEvery` are set and never read.
- Session tracer: session ids are taken to be distinct; a second `Close` is no step of the transition system, and `AsyncTracer.AsyncTracer.Close` reports it as `false` where the source panics.
- AsyncTracer.AsyncTracer.Close: one goroutine's code without interruption, from any state that an interleaving reaches; what others do in between is in `TraceSafety.StopDelivers` and `TraceRuns.WorkerStepsBounded`, over all interleavings.
- AsyncTracer.AsyncSession.Emit: the same; interrupted calls are steps of the transition system.
- JsonlSink.Sink.Write: writes and flushes to an open file succeed in full; the order of two writes is that of the mutex. Closing a file does not fail.
- JsonlSink: the module at whose import path the sink finds its event type, internal/observability/sessiontrace, is not part of this model.
- DovecotAuth.Session.Handle: the error of closing the connection, which replaces the result, and the scanner's limit on line length; the listener, Start and Stop, logging and trace spans.
- Dovecot: base64 and the authenticator are parameters; the round trip assumes that decoding undoes encoding. Process id, connection count and cookie are constants. Lines are sequences of bytes, one character each.
- DovecotRuns.LoginRoundTrip: id, service name and encoded response are free of tabs, as any single field of a line is.
- MetricBuckets: days, weeks, months and years, which round on calendar fields and truncate on 24-hour multiples.
- MetricBuckets.KeyInUnits: fixed zone offsets and positive intervals; changes of a zone's offset over time, negative intervals and the overflow of 64-bit durations are not modelled.
- MetricBuckets.KeyShows: years before 0 and after 9999, whose texts are longer.
- MetricBuckets.KeysAgreeExactly: keys of different units are compared in years of four digits; the calendar is the proleptic Gregorian one of the source's time package.
- MilterCodec: errors from WritePacket and from binary.Write to a buffer; Quarantine and ChangeFrom, which write one terminated string; the callback interface.
- ConfigureTree: transactions and concurrent calls; string comparison is exact; the OR over missing parents is taken to be parenthesised with the name. GetConfigureByID, UpdateConfigure and the listing functions.
- ConfigureTree.Configures.GetConfigureByNames: of an error only that there is one, not its text.
- TokenizerBasic.TokenizerBasic.constructor: the constructors' sync.Once, by which a second call returns a nil tokenizer; an empty separator string, at which the source panics, is excluded.
- TokenizerBasic.TokenizerBasic.Cut: the four flags, which it ignores.
- TokenizerDefault.TokenizerDefault.Cut: the segmenter is a list of words, so the byte order marks removed before it do not appear; the words of a set are tried in any order.
- TokenizerChain.TokenizerChain.Cut: text is given as runes, with invalid UTF-8 already replaced; lower case is modelled for the letters below 255, the only ones that reach it.
- The rule language of the filters: a printer without a reader.
- Database, Redis, YAML and HTML libraries, account and domain management, storage, commands and middleware: plumbing around external libraries.
