# Temperature readings: ingest handler and latest-reading query

This project models the two pieces of logic in a small temperature-telemetry system and
proves properties about them.

- **Ingest handler** (`backend/granxa_tcp_server.py`, `handle_client`). A device opens a TCP
  connection and sends one JSON reading. The handler does one `recv(1024)`, decodes the
  bytes as UTF-8 and logs them, sends the fixed acknowledgement
  `Temperature storage has received the package!`, closes the socket, parses the bytes
  with `json.loads` and inserts the document into the `readings` collection. The model is
  the class `Ingest.Handler`: its method `HandleClient` appends the handler's effects to
  an event trace (`Recv`, `LogReceived`, `SendAck`, `Close`, `Insert`, `LogStored`) and
  adds the stored document to the collection. The specification of the method is
  `Ingest.Trace`: the six effects in their fixed order, cut off at the step that raises.
- **Latest-reading query** (`frontend/flask_app.py`, `index` and `update_doc`). Both
  routes fetch the `temperature` readings, sort them by `timestamp` and take the last one.
  They then replace its timestamp with a rendered date-time and pop `_id`. The selection
  is modelled as pure functions: `Query.Find` and a stable insertion sort,
  `Query.SortByTimestamp`. The in-place dict update is the class `Query.Document`, which
  `Query.RenderInPlace` changes. `Query.LatestReading` is the specification that
  `Query.Index` and `Query.UpdateDoc` are both proved to compute, so the two routes give
  the same value for the same store contents.

UTF-8 is modelled concretely, following RFC 3629. `Utf8.CharLength` is the byte syntax of
RFC 3629 section 4, which is what Python's strict decoder accepts. `Utf8.EncodeChar` is the
table of RFC 3629 section 3. The model proves that decoding succeeds exactly on byte strings
that encode some text. It also proves that a prefix of an encoded text decodes exactly when
it ends on a character boundary. So a message cut inside a multi-byte character by the
single 1024-byte read is rejected at the decode. In the code the decode comes before the
send, so such a client gets no acknowledgement and `close()` is not called.

The acknowledgement is not unconditional. A request that is not well-formed UTF-8 raises at
`request.decode('utf-8')` (line 18), before the send at line 20. `Ingest.AckIffDecodes`
states this. With no temperature readings, `[-1]` raises `IndexError`, and so does the
model.

Inputs that stand for what the model does not compute:
- `parse: seq<Byte> -> Option<Record>` stands for `json.loads`. `None` means it raised.
- `render: int -> string` stands for `datetime.fromtimestamp(t).isoformat()`.
- `delivered` is how many bytes had arrived when `recv` returned. When the peer sent
  anything, 0 is read as 1: `recv` waits for one byte.
- `storeOk` says whether `insert_one` returned or raised.
- `oid` is the ObjectId that `insert_one` gives a document that has no `_id`.
- The store's contents are the sequence `store`. `find` is assumed to return documents in
  insertion order.

## Model

| member | source | states |
|---|---|---|
| `Utf8.CharLength` | backend/granxa_tcp_server.py:18 | the UTF8-char at the start of the bytes is at most 4 bytes and fits the input |
| `Utf8.CharLengthTails` | backend/granxa_tcp_server.py:18 | every byte of that UTF8-char after its lead byte is a continuation byte 80..BF |
| `Utf8.DecodeChar` | backend/granxa_tcp_server.py:18 | a well-formed UTF8-char decodes to a Unicode scalar value (never a surrogate, at most U+10FFFF) whose shortest encoding has exactly that many bytes, so overlong forms never decode |
| `Utf8.EncodeCharDecodes` | backend/granxa_tcp_server.py:18 | an encoded character is read back as one character whatever bytes follow it |
| `Utf8.DecodeCharEncodes` | backend/granxa_tcp_server.py:18 | every well-formed UTF8-char is exactly the encoding of the character it decodes to |
| `Utf8.Decode` | backend/granxa_tcp_server.py:18 | strict decoding yields no more characters than bytes |
| `Utf8.DecodeEncode` | backend/granxa_tcp_server.py:18 | decoding the UTF-8 encoding of any text gives that text back |
| `Utf8.EncodeDecode` | backend/granxa_tcp_server.py:18 | whatever decodes is exactly the encoding of its decoding |
| `Utf8.DecodeSucceedsIffWellFormed` | backend/granxa_tcp_server.py:18 | strict decoding succeeds if and only if the bytes are the UTF-8 encoding of some text |
| `Utf8.EncodedPrefix` | backend/granxa_tcp_server.py:17-18 | an encoding that is a prefix of another encoding comes from a prefix of that text (UTF-8 is self-synchronising) |
| `Utf8.TruncatedDecode` | backend/granxa_tcp_server.py:17-18 | a prefix of an encoded text decodes if and only if it ends on a character boundary |
| `Ingest.Received` | backend/granxa_tcp_server.py:17 | the request is a prefix of what the peer sent and at most 1024 bytes long; it is non-empty when the peer sent anything; it is the whole message, up to 1024 bytes, when the message had fully arrived |
| `Ingest.WithId` | backend/granxa_tcp_server.py:27 | the stored document has an `_id`; an existing `_id` is kept, otherwise the new ObjectId is used; every other field is unchanged |
| `Ingest.Effects` | backend/granxa_tcp_server.py:17-28 | the six effects of a connection in the handler's line order: the read of the request first, the fixed ack third, `close()` fourth |
| `Ingest.Progress` | backend/granxa_tcp_server.py:18-28 | the handler stops after 1 effect (the decode at line 18 raises), 4 (`json.loads` at line 27 raises), 5 (`insert_one` raises) or all 6; it stops after the first exactly when the request does not decode |
| `Ingest.Trace` | backend/granxa_tcp_server.py:16-28 | what one connection does is a non-empty prefix of the six effects, starting with the read of the request |
| `Ingest.OutcomeOf` | backend/granxa_tcp_server.py:18-28 | the thread completes exactly when all six effects happen; it raises at the decode of line 18 (`UnicodeDecodeError`) exactly when the request does not decode; a later failure is `ParseError` (`json.loads` raised) or `StoreError` (`insert_one` raised) |
| `Ingest.StoredBy` | backend/granxa_tcp_server.py:27 | at most one document is stored; one is stored exactly when the request decodes, parses and the insert succeeds, and it is the parse result with its `_id` |
| `Ingest.Handler.HandleClient` | backend/granxa_tcp_server.py:16-28 | the new trace is the old trace plus the fixed six-event order truncated at the first failure; the collection grows by the stored document only when the insert succeeds; the outcome names the exception raised |
| `Ingest.TraceOrder` | backend/granxa_tcp_server.py:17-28 | every trace starts with `Recv` of the request; the i-th event is the i-th step of Recv < LogReceived < SendAck < Close < Insert < LogStored, so each kind occurs at most once and in that order |
| `Ingest.AckIffDecodes` | backend/granxa_tcp_server.py:18-21 | the ack is sent and `close()` is called if and only if the request decodes; the only message sent is the fixed acknowledgement |
| `Ingest.DecodeFailureAborts` | backend/granxa_tcp_server.py:18 | an undecodable request leaves the trace at `[Recv]`, raises a decode error and stores nothing |
| `Ingest.CutMessageGetsNoAck` | backend/granxa_tcp_server.py:17-20 | a UTF-8 message that the one read cuts inside a character gets no ack, no close and no insert |
| `Ingest.WholeMessageIsLogged` | backend/granxa_tcp_server.py:17-20 | a message of at most 1024 bytes that had fully arrived is read whole, logged as the text sent, and acknowledged |
| `Ingest.InsertIffParsed` | backend/granxa_tcp_server.py:27 | an insert is attempted if and only if the request decodes and parses, and the document inserted is the parse result |
| `Ingest.StoredIffLogged` | backend/granxa_tcp_server.py:27-28 | at most one document is stored per connection; one is stored if and only if "Reading stored" is logged, that is if and only if decoding, parsing and the insert all succeed; it is the parsed document with its `_id` |
| `Ingest.SuccessfulConnection` | backend/granxa_tcp_server.py:16-28 | a request that decodes and parses, with a working store, produces all six events in order, completes, and stores the document |
| `Ingest.IngestedNewestIsServed` | frontend/flask_app.py:18-22 | after ingesting a temperature reading whose timestamp no stored temperature reading exceeds, the query returns that reading rendered and without the `_id` the store gave it |
| `Query.Find` | frontend/flask_app.py:18 | a record is found if and only if it is in the store and its `sensorType` is the string asked for; nothing is added |
| `Query.FindAppend` | frontend/flask_app.py:18 | a record appended to the store is found last, when it matches |
| `Query.InsertByTimestamp` | frontend/flask_app.py:19 | one insertion step adds exactly the new record to the multiset of records |
| `Query.InsertKeepsSorted` | frontend/flask_app.py:19 | insertion into a sequence sorted by timestamp keeps it sorted |
| `Query.InsertLast` | frontend/flask_app.py:19 | after insertion, the new record is last if and only if no earlier timestamp is larger (ties go to the later record, as a stable sort does) |
| `Query.SortByTimestamp` | frontend/flask_app.py:19 | the result is sorted by ascending timestamp and is a permutation of the input |
| `Query.LatestIndex` | frontend/flask_app.py:19 | the index found by a scan has a timestamp no record exceeds, and every later record's timestamp is smaller |
| `Query.SortedLastIsLatest` | frontend/flask_app.py:19 | the last element of the stable sort is the record at the latest index, so on equal timestamps the last one in store order wins |
| `Query.AppendedNewestIsLatest` | frontend/flask_app.py:19 | a record appended after records none of whose timestamps exceeds its own is the latest one, even on a tie |
| `Query.Projected` | frontend/flask_app.py:20-22 | `_id` is absent; `timestamp` holds the rendering of the original timestamp; every other field is present exactly when it was, with the same value |
| `Query.LatestReading` | frontend/flask_app.py:18-22 | a reading is produced only when there are temperature candidates, all with integer timestamps; it has no `_id` and a rendered `timestamp`; any other outcome is one of `KeyError('timestamp')`, `TypeError`, `IndexError`, `KeyError('_id')`, raised in that order of precedence (see `Query.LatestReadingErrors`) |
| `Query.LatestReadingOfCandidates` | frontend/flask_app.py:19-22 | once every candidate has an integer timestamp, the result is the latest candidate projected, or `KeyError('_id')` when that candidate has no `_id` |
| `Query.LatestReadingOk` | frontend/flask_app.py:18-22 | a value is produced if and only if there is a candidate, every candidate has an integer timestamp and the latest carries `_id`; the value is the latest candidate projected |
| `Query.LatestReadingErrors` | frontend/flask_app.py:18-22 | `KeyError('timestamp')` if and only if some candidate lacks a timestamp; `TypeError` if and only if all have one but some is not an integer; `IndexError` if and only if there is no candidate; `KeyError('_id')` if and only if the latest candidate lacks `_id` |
| `Query.LatestCandidateIsNewest` | frontend/flask_app.py:18-19 | the latest candidate is a temperature reading of the store, and every temperature reading of the store has an integer timestamp no larger than its own |
| `Query.StoredNewestIsServed` | frontend/flask_app.py:18-22 | once a temperature reading with an `_id` and a timestamp no stored temperature reading exceeds is added to the store, it is what the query returns, projected |
| `Query.ServedReadingIsNewest` | frontend/flask_app.py:18-22 | a served value is the projection of a temperature reading of the store whose timestamp no temperature reading exceeds |
| `Query.Document.SetItem` | frontend/flask_app.py:21 | the dict afterwards is the old dict with that one key set |
| `Query.Document.Pop` | frontend/flask_app.py:22 | a present key is returned and removed, and nothing else changes; a missing key raises `KeyError` and leaves the dict unchanged |
| `Query.RenderInPlace` | frontend/flask_app.py:20-22 | with `_id` present the dict becomes its projection and the popped `_id` is returned; without it the timestamp has already been rewritten and `KeyError('_id')` is raised |
| `Query.FetchLatest` | frontend/flask_app.py:18-22 | the dict-mutating implementation computes `LatestReading` of the store, errors included |
| `Query.Index` | frontend/flask_app.py:16-26 | the `/` route computes `LatestReading` of the store |
| `Query.UpdateDoc` | frontend/flask_app.py:29-37 | the `/update_doc` route computes `LatestReading` of the store, the same value as `/` |

## Left out

- Socket bind and listen, and the endless accept loop that starts one thread per
  connection (backend/granxa_tcp_server.py:8-13, 31-35). These are network set-up and
  concurrency. One handler is modelled as a sequential method. Handlers share only
  the collection and stdout.
- Exceptions from the socket itself (a reset connection in `recv`, `send` or `close`).
  Partial `send` is not modelled either.
- Ingest.Received, Ingest.Progress, Ingest.Trace: no time-out is set on the socket, so a
  peer that connects and then never sends nor closes blocks `recv` at
  backend/granxa_tcp_server.py:17 forever; that thread has no effect and never ends. The
  model's peer always sends or closes, so every modelled handler returns with `Recv` in
  its trace.
- The `MongoClient` connection and the internals of `collection.find` and `insert_one`.
  The store is a sequence of documents in insertion order. A failed insert is the input
  `storeOk`. `find` matches by string equality only; MongoDB's matching of array fields
  is not modelled.
- Ingest.OutcomeOf: the model does not distinguish which exception `json.loads` raises.
  All of them are `ParseError`, including the `UnicodeDecodeError` its encoding detection
  can raise on a request that is valid UTF-8 (such as one starting with a zero byte).
  `UnicodeDecodeError` in the model means only the decode at line 18.
- Ingest.StoredBy, Ingest.StoredIffLogged: a failed insert (`storeOk` false) stores
  nothing in the model. In pymongo an exception from `insert_one` does not prove that
  nothing was written: if the connection drops after the server applied the insert but
  before its reply arrives, `AutoReconnect` is raised, the document is stored, and
  "Reading stored" is never logged. "Stored exactly when logged" holds only for
  inserts that either fail before writing or return.
- The JSON grammar and the encoding detection of `json.loads` are not modelled. They are
  the abstract `parse`. A JSON value that is not an object, which `insert_one` would
  reject, is not distinguished from a parse failure.
- `datetime.fromtimestamp(...).isoformat()` is the abstract `render`. It depends on the
  local timezone. The errors it raises for timestamps out of range (`OverflowError`,
  `OSError`, `ValueError`) are not modelled.
- Float and boolean timestamps are not modelled: the model's values have no floats.
  Every timestamp that is not an integer leads to `TypeError`. For the values modelled,
  that is what Python raises, either when comparing or in `fromtimestamp`.
- Flask routing, `render_template`, the response wrapping and the `print` calls of the two
  routes (frontend/flask_app.py:15-17, 23-26, 35-37).
- The `print` calls of the handler appear only as the `LogReceived` and `LogStored` events.
- Ingest.Progress, Ingest.OutcomeOf, Ingest.StoredBy, Ingest.Handler.HandleClient,
  Ingest.AckIffDecodes, Ingest.WholeMessageIsLogged, Ingest.InsertIffParsed,
  Ingest.StoredIffLogged, Ingest.SuccessfulConnection, Ingest.IngestedNewestIsServed:
  the model's `print` always succeeds. In the source, `print` raises `UnicodeEncodeError`
  when stdout's encoding cannot hold the decoded text (a request with U+2103 under a
  latin-1 locale), and `BrokenPipeError` or `OSError` when stdout is closed. At
  backend/granxa_tcp_server.py:18 that ends the thread after the read, with no ack, no
  `close()` and no insert; at line 28 it ends the thread after the document is stored,
  without completing. These stdout failures are not modelled.
- When the decode at line 18 raises, the handler does not call `close()`. The connection
  is still released once CPython finalises the socket object, after the thread ends and the
  accept loop's `client` variable (backend/granxa_tcp_server.py:32) is rebound. Garbage
  collection is not modelled; the `Close` event means only that `close()` is called.
- Query.SortByTimestamp: stability is not stated as a general property of the sort. It is
  proved only for the last element (`Query.SortedLastIsLatest`), which is all the routes use.
