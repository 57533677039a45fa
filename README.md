# Telemetry archive indexer and read API, modelled in Dafny

The service reads one archive file at start-up. The archive reader calls
back once per record, in file order, with `(time, type, data)`. The `Api`
object turns that stream into an in-memory map:

- the plan text (`model`) and its md5 digest (`modelHash`);
- the day anchor (`modelTime`): local midnight of the day of the first
  field record;
- 86,400 one-second field slots. Each slot holds the last field text
  written to it;
- 86,400 engine slots. Each slot is a list that engine payloads are
  appended to.

When the whole pass succeeds, the service raises its `ready` flag. It then
answers `/api/model`, `/api/field?time=<second>` and `/api/version`. Until
then, every route under `/api/` answers "data not ready".

Modules:

- `Archive` (archive.dfy): records, payload bytes and the host services.
  The host services are UTF-8 decoding, md5 and local midnight. They are
  deterministic function values and are otherwise unconstrained.
- `Timeline` (timeline.dfy): the map as a value. `Step` is one callback.
  `Ingest` is the whole pass.
- `IngestProperties` (ingest_lemmas.dfy): reference definitions over the
  record sequence, and what a pass leaves in the map.
- `Query` (query.dfy): the readiness gate and the three handlers, as
  functions of the finished map.
- `Server` (api.dfy): class `Api`. It has the fields and the two 86,400-slot
  arrays that the callback updates in place. `OnRecord` and `Start` are
  proved to follow `Step` and `Ingest`. `Serve` is proved to answer as
  `Handle` does.
- `Scenarios` (scenarios.dfy): what `/api/field` answers after a whole
  archive, and an example day.

The model reproduces these details of the service's behaviour:

- `/api/version` is behind the readiness gate. The gate middleware is
  registered before that route (src/api.ts:95, src/api.ts:124).
- A plan only counts as "already stored" when its text is non-empty.
  So after an empty plan, a second plan is accepted.
- A `modelTime` of `0` means "unset". If local midnight is `0`, the anchor
  stays unset and the next field record derives it again.
- A reader failure is caught and logged. The records delivered before the
  failure stay applied, `ready` stays false, and the process keeps running.

## Model

| member | source | states |
|---|---|---|
| `Archive.KindOf` | src/api.ts:49-86 | a record is dispatched as a plan, field or engine record exactly when its tag is "plan", "field" or "engine"; every other tag is `Other` and keeps its text, so `Other` never holds one of the three dispatched tags |
| `Timeline.Empty` | src/api.ts:22-28 | the fresh map has no plan, an unset anchor, 86,400 empty field slots and 86,400 empty engine slots |
| `Timeline.SlotIndex` | src/api.ts:70 | the slot index is the number of whole seconds from the anchor to the record time, rounded down (also before the anchor) |
| `Timeline.Step` | src/api.ts:48-87 | a plan record exits the process exactly when a non-empty plan is stored; an accepted plan stores its text and the md5 of that text and changes nothing else; only a field record seen while the anchor is unset sets it, to that record's local midnight; a field record overwrites only the in-day slot its time maps to; an engine record seen while the anchor is set appends to only the in-day slot its time maps to; out-of-day records and early engine records change no slot and raise no error |
| `Timeline.Ingest` | src/api.ts:48-87 | a pass keeps 86,400 slots in each array, and keeps `modelHash` equal to the md5 of the stored plan text (so equal plan text gives equal hashes) |
| `IngestProperties.ExitIffRepeatedPlan` | src/api.ts:49-54 | the pass ends in a process exit if and only if some plan record arrives after a non-empty plan was stored (before the pass or earlier in the stream) |
| `IngestProperties.AnchorSetOnce` | src/api.ts:62-69 | once set, the anchor is never changed by later records |
| `IngestProperties.NoFieldRecordsLeaveSlotsUnchanged` | src/api.ts:76-86 | while no field record has arrived, the anchor stays unset and no field or engine slot changes, so engine records arriving before the first field record are dropped |
| `IngestProperties.FieldLastWriteWins` | src/api.ts:70-73 | with the anchor set, each field slot ends up holding the text of the last field record mapping to it, or keeps its old content if none does |
| `IngestProperties.EnginesAppendInArrivalOrder` | src/api.ts:78-84 | with the anchor set, each engine slot gains exactly the payloads of the engine records mapping to it, in arrival order |
| `IngestProperties.IngestFromEmpty` | src/api.ts:59-86 | after a clean pass from the fresh map, the anchor is the first field record's local midnight, each field slot holds the last field text mapping to it from that record on, and each engine slot holds, in order, all engine payloads mapping to it from that record on |
| `IngestProperties.FirstFieldIsStored` | src/api.ts:62-73 | if local midnight lies within 24 hours before each instant, the first field record falls inside the day it anchors and is stored |
| `Query.FieldLookup` | src/api.ts:104-123 | `/api/field` succeeds if and only if `time` parses to an in-day second whose field slot holds non-empty text, whatever the engine slot holds; it then returns the digest, that text and that second's engine list; otherwise it returns "time not specified" when `time` is missing and "no data found" in every other case |
| `Query.Handle` | src/api.ts:95-131 | while not ready, every route under `/api/` (version included) answers "data not ready"; once ready, no route does, `/api/model` returns the stored plan, `/api/field` answers as `FieldLookup`, and `/api/version` returns the fixed descriptor |
| `Server.Api.constructor` | src/api.ts:15-28 | a new `Api` is not ready and holds the fresh map in two new 86,400-slot arrays |
| `Server.Api.OnRecord` | src/api.ts:48-87 | the callback updates the fields and arrays in place exactly as `Step` says; on exit it leaves them as they were; it keeps the digest matching the plan |
| `Server.Api.Start` | src/api.ts:46-93 | the loop over the delivered records leaves the map `Ingest` gives; the outcome is an exit exactly when `Ingest` exits, and a read failure exactly when the reader failed without an exit; `ready` is raised only on a complete, clean pass |
| `Server.Api.Serve` | src/api.ts:94-131 | answering from the arrays with a single-slot lookup gives the same response as `Handle` on the current map and flag |
| `Scenarios.FieldAnswerAfterIngest` | src/api.ts:59-123 | after a clean pass, `/api/field?time=i` succeeds if and only if the last field record mapping to `i` had non-empty text; it then returns that text with all engine payloads mapping to `i`, in order; otherwise it answers "no data found" |
| `Scenarios.ExampleDay` | src/api.ts:48-123 | plan, fields at 08:00:00 and 08:00:01, engine at 08:00:00: the anchor is that day's midnight, slots 28800 and 28801 hold the two field texts, engine slot 28800 holds the one payload, second 28800 is served with it, and second 5 gives "no data found" |

## Left out

- Transport is not modelled: the HTTP server, JSON body parsing, CORS and
  port-in-use handling (src/api.ts:30-44). Requests are the `Route` values.
- Static files are not modelled. Their middleware is registered before the
  API routes, so a file under the static directory could shadow an `/api/`
  path.
- Routes under `/api/` without a handler are modelled as `Unhandled`. The
  web framework's default answer to them is not modelled.
- Archive decoding (`PrtReader.processFile`) is not part of this model. It
  is the ordered sequence of records it delivers, plus whether it failed
  after them.
- UTF-8 decoding, md5 and local-midnight `Date` arithmetic are the `Host`
  function values. Nothing is assumed of them except that they are
  deterministic.
- The 24-hour bound on local midnight is only a hypothesis of
  `FirstFieldIsStored`. A 25-hour daylight-saving day breaks it, and then
  the last hour of that day falls outside the timeline.
- Record times are whole milliseconds. NaN or fractional times from the
  reader are not modelled.
- `parseInt` is not modelled. Its result is the `TimeParam` value: missing,
  not a number, or an integer.
- JSON encoding is not modelled. An engine slot never created is `[]` here;
  the service omits that member from its reply.
- The state after a process exit is not modelled. The process ends, so
  `Start` says nothing about the map after it.
- Engine payloads are stored as values. The service stores references to
  the reader's `Buffer` objects, so any aliasing between them is not
  captured.
- Console logging and the periodic poller service (src/app.ts) are not
  modelled. The poller has no indexing logic.
- Requests served while ingestion is under way are not modelled as
  interleavings. The gate answers them with "data not ready" because
  `ready` is still false, and that case is covered.
