# nginx-otel core, modelled in Dafny

This project models the core of nginx-otel, the nginx module that exports
OpenTelemetry traces. The core has three parts.

- **W3C trace context** (`src/trace_context.hpp`). A request carries a
  trace context: a 16-byte trace id, an 8-byte span id, a sampled flag and
  an opaque `tracestate` string. The file does three things:
  - `generate` derives a child context, joining the parent's trace when its
    trace id is valid.
  - `parse` validates and decodes an inbound `traceparent` header (section
    3.2 of the W3C Trace Context Recommendation). Every header it rejects
    yields the zero context `TraceContext{}`.
  - `serialize` writes the 55-character outbound header into a caller's
    buffer.
- **Batching exporter** (`src/batch_exporter.hpp`).
  - `BatchExporter` keeps a fixed pool of reusable export requests and
    checks one out (`current`). `currentSize` counts the spans accepted
    into it; -1 means no request is checked out.
  - `add` ships a full request, takes a buffer from the pool or refuses the
    span, and then lets a callback fill the next span record.
  - `flush` ships a partly filled request.
  - The export client's completion callback returns a request to the pool.
  - `BatchExporter::Span` overwrites one reusable span record. It writes the
    header, appends attributes into reused or new slots, and its destructor
    drops stale slots left over from an earlier use of the record.
- **`startsWith`** (`src/str_view.hpp`).

Modules:
- `StrView` (`str_view.dfy`): `startsWith`.
- `Hex` (`hex.dfy`): the base-16 codec.
- `TraceContext` (`trace_context.dfy`): generate, parse and serialize.
- `Otlp` (`otlp.dfy`): the export-request messages as datatypes.
- `Batch` (`batch_exporter.dfy`): truncate, the span writer, the request
  pool and the exporter.

`parse` and `generate` are functions. `serialize` is a method that writes
character by character into an `array<char>`, and it is proved to leave
exactly `Header(tc)` in the first 55 cells. The exporter and the span writer
are classes whose methods update their fields in place.
`BatchExporter.Valid()` is the exporter's invariant:
- `-1 <= currentSize`, and `currentSize <= batchSize` when `batchSize > 0`.
- A checked-out request has no fewer physical span records than
  `currentSize`.
- Every buffer is the pooled template with some span records, at most
  `batchSize` of them when `batchSize > 0`.
- The pool is conserved: `|free| + |inFlight| + (1 if a request is checked
  out) == batchCount`.

Every public operation of the exporter (the constructor, `add`, `flush`
and the completion callback) keeps this invariant, and so do the three
steps `add` is split into. `SendBatch` alone does not: it only appends to
the in-flight requests, and its callers restore the pool count.

The main results:
- `TraceContext.ParseHeader`: parse reads back what serialize writes.
- `TraceContext.HeaderParse`: serialize writes back a lower-case header with
  flags `00` or `01` exactly as it was read.
- `Batch.WriterForgetsSlot`: the record the span writer leaves behind does
  not depend on what the reused slot held, given its array values have at
  most one element, which the exporter's invariant keeps. It equals the
  record written into a fresh slot.
- `Batch.BatchExporter.Add`: states what `add` does in every case.
  - It returns `false` exactly when it needs a buffer and the pool is empty.
    It then changes nothing except that a full batch is shipped first.
  - When `batchSize > 0`, a request shipped by `add` holds exactly
    `batchSize` spans, all of them accepted ones.
  - An accepted span is appended to the accepted spans.
  - If the callback throws, the accepted spans stay as they were.

Section 3.2.2.3 of the W3C Trace Context Recommendation treats an all-zero
trace-id as invalid, and section 3.2.2.4 an all-zero parent-id. `parse`
does not check this, so a well-formed all-zero header decodes as written. The model follows the code:
`TraceContext.ParseAccepts` has no validity condition.

## Model

| member | source | states |
|---|---|---|
| StrView.Substr | src/str_view.hpp:9 | `substr(pos, n)` clamps to the end of the string: the result is `s[pos..]` cut to at most `n` characters |
| StrView.StartsWith | src/str_view.hpp:7-10 | true exactly when the prefix is no longer than the string and equals its first `|prefix|` characters |
| StrView.StartsWithEmpty | src/str_view.hpp:9 | every string starts with the empty string |
| StrView.StartsWithTooLong | src/str_view.hpp:9 | a prefix longer than the string never matches |
| StrView.StartsWithConcat | src/str_view.hpp:9 | `p` is a prefix of `p + t` for every `t`, and of itself |
| Hex.LowerDigitValue | src/trace_context.hpp:74-79 | the digit written for a nibble is a lower-case hex digit of that value |
| Hex.IsHex | src/trace_context.hpp:55-56 | `IsValidHex`: every character is a hex digit of either case; a predicate with no ensures, used by `ParseRejectsNonHex` and `ParseAccepts` |
| Hex.Encode | src/trace_context.hpp:75-79 | `ToLowerBase16`: two lower-case digits per byte, high nibble first; ensures the length is twice the byte count; its contract is carried by `Hex.EncodeAt`, `Hex.EncodeLower` and `Hex.DecodeEncode` |
| Hex.Decode | src/trace_context.hpp:61-63 | `TraceIdFromHex`, `SpanIdFromHex`, `TraceFlagsFromHex`: one byte per digit pair of an even-length hex text; ensures the byte count is half the length; its contract is carried by `Hex.DecodeAt`, `Hex.DecodeLowBit` and `Hex.EncodeDecode` |
| Hex.ByteDigitsValue | src/trace_context.hpp:74-79 | the two digits written for a byte are lower-case and read back as the byte, high nibble first |
| Hex.EncodeAt | src/trace_context.hpp:74-79 | byte `i` of an id becomes characters `2i` and `2i+1` of its hex text |
| Hex.DecodeAt | src/trace_context.hpp:61-62 | byte `i` of a decoded id is read from characters `2i` and `2i+1` |
| Hex.DecodeLowBit | src/trace_context.hpp:61-63 | the low bit of the flags byte is the low bit of its second hex digit |
| Hex.EncodeLower | src/trace_context.hpp:74-79 | the id writer emits only lower-case hex digits |
| Hex.DecodeEncode | src/trace_context.hpp:61-79 | decoding the written hex text of an id gives the id back |
| Hex.DecodeEncodeAt | src/trace_context.hpp:61-79 | byte `i` of the decoded hex text of an id is byte `i` of the id |
| Hex.EncodeDecode | src/trace_context.hpp:55-79 | re-encoding decoded hex text gives the same digit values, position by position, whatever the letter case |
| Hex.EncodeDecodeAt | src/trace_context.hpp:55-62 | character `i` of re-encoded hex text has the value of character `i` of the original |
| Hex.EncodeDecodePair | src/trace_context.hpp:55-79 | the two characters re-encoded from byte `j` have the values of characters `2j` and `2j+1` of the original |
| Hex.EncodeDecodeLower | src/trace_context.hpp:55-62 | lower-case hex text survives decoding and re-encoding unchanged |
| Hex.LowerDigitUnique | src/trace_context.hpp:74-79 | a lower-case digit is determined by its value |
| TraceContext.IsValid | src/trace_context.hpp:24 | `IsValid()` of an id: some byte is non-zero; a predicate with no ensures, used by `Generate`, `EmptyIsInvalid` and the span constructor (src/batch_exporter.hpp:45) |
| TraceContext.EmptyIsInvalid | src/trace_context.hpp:37 | the zero context `TraceContext{}` has an invalid trace id and span id |
| TraceContext.Generate | src/trace_context.hpp:20-29 | the child keeps a valid parent trace id and otherwise takes the fresh one; it takes the fresh span id, copies `sampled` and inherits the parent's state |
| TraceContext.GenerateRoot | src/trace_context.hpp:20 | with the default parent a new trace starts: fresh ids and an empty state |
| TraceContext.GenerateFromHeader | src/trace_context.hpp:20-64 | a span started under a serialized parent header shares the parent's trace id and takes the header's state and the fresh span id |
| TraceContext.Fields | src/trace_context.hpp:36 | the exact split of a header at every hyphen; ensures there is at least one field; see `FieldCount`, `FieldsCons`, `FieldsJoin` and `FieldsSplitsAsWritten` |
| TraceContext.IsSampled | src/trace_context.hpp:63 | `IsSampled()` of the flags byte: its low bit; no ensures, see `DecodeLowBit` and `ParseAccepts` |
| TraceContext.Parse | src/trace_context.hpp:31-65 | `parse`: four fields, version "00", lengths 32/16/2 and hex digits, else `TraceContext{}`; no ensures, see `ParseRejectsFieldCount`, `ParseRejectsVersion`, `ParseRejectsLength`, `ParseRejectsNonHex` and `ParseAccepts` |
| TraceContext.FirstHyphen | src/trace_context.hpp:36 | the position of the first hyphen: a hyphen with none before it |
| TraceContext.FieldCount | src/trace_context.hpp:36 | a header has one hyphen-separated field more than it has hyphens |
| TraceContext.FieldsHead | src/trace_context.hpp:36-40 | a header with several fields starts with its first field and a hyphen |
| TraceContext.FieldsCons | src/trace_context.hpp:36 | splitting stops at the first hyphen: a hyphen-free `a`, a hyphen and `b` split into `a` and the fields of `b` |
| TraceContext.FieldsJoin | src/trace_context.hpp:35-43 | four hyphen-free fields joined by hyphens split back into exactly those four |
| TraceContext.FieldsSplitsAsWritten | src/trace_context.hpp:36 | the exact hyphen split meets what is required of the splitter |
| TraceContext.ParseRejectsFieldCount | src/trace_context.hpp:35-38 | a header with fewer than three hyphens (fewer than four fields) parses to `TraceContext{}` |
| TraceContext.ParseRejectsVersion | src/trace_context.hpp:40-47 | a four-field header that does not start with "00-" parses to `TraceContext{}` |
| TraceContext.ParseRejectsLength | src/trace_context.hpp:49-53 | a trace id other than 32 characters, a span id other than 16 or flags other than 2 give `TraceContext{}` |
| TraceContext.ParseRejectsNonHex | src/trace_context.hpp:55-59 | a non-hex character in the trace id, span id or flags gives `TraceContext{}` |
| TraceContext.ParseAccepts | src/trace_context.hpp:61-64 | a well-formed header decodes to the hex-decoded ids, `sampled` equal to the low bit of the flags byte, and the given state unchanged |
| TraceContext.FlagsText | src/trace_context.hpp:83-84 | the flags written are two lower-case hex digits whose low bit is the sampled flag |
| TraceContext.HeaderJoin | src/trace_context.hpp:67-85 | the header is "00", the lower-case trace id, the lower-case span id and the flags, joined by hyphens |
| TraceContext.HeaderLayout | src/trace_context.hpp:67-85 | the 55 characters are "00-", 32 lower-case trace-id digits, '-', 16 lower-case span-id digits, '-', '0' and then '1' if sampled, else '0' |
| TraceContext.Header | src/trace_context.hpp:67-85 | the text `serialize` writes: "00-", the trace id's hex, "-", the span id's hex, "-0" and the sampled digit; ensures its length is 55; see `HeaderJoin`, `HeaderLayout` and `Serialize` |
| TraceContext.ParseHeader | src/trace_context.hpp:31-85 | parsing a serialized context gives back its trace id, span id and sampled flag, with the state passed to parse |
| TraceContext.HeaderParse | src/trace_context.hpp:31-85 | a lower-case header with flags "00" or "01" is serialized back exactly as it was parsed |
| TraceContext.Serialize | src/trace_context.hpp:67-85 | writes the header into the first 55 cells of the buffer and leaves the rest of the buffer unchanged |
| TraceContext.WriteLowerBase16 | src/trace_context.hpp:74-79 | writes the lower-case hex text of an id at the write position and nothing else |
| TraceContext.WriteByte | src/trace_context.hpp:74-79 | the two digits of one byte land at the write position, extending the written prefix |
| TraceContext.WriteChar | src/trace_context.hpp:71-84 | `*out++ = c`: one character at the write position |
| TraceContext.HexStep | src/trace_context.hpp:74-79 | writing the digits of one more byte extends the written hex text by that byte's digits |
| TraceContext.EncodeSnoc | src/trace_context.hpp:74-79 | the hex text of an id with one more byte is the old text and that byte's two digits |
| Otlp.GetSpans | src/batch_exporter.hpp:201-206 | `getSpans`: the spans of the first scope of the first resource; no ensures, see `SpansRoundTrip` |
| Otlp.WithSpans | src/batch_exporter.hpp:201-206 | writing through `getSpans` keeps the request's shape |
| Otlp.SpansRoundTrip | src/batch_exporter.hpp:201-206 | what is written through `getSpans` is read back, writing back what was read changes nothing, and a second write overrides the first |
| Otlp.WithSpansKeepsRest | src/batch_exporter.hpp:201-206 | writing through `getSpans` leaves the resource attributes, the scope and the other blocks alone |
| Batch.Truncate | src/batch_exporter.hpp:208-216 | the result is the first `min(size, newSize)` items, untouched, and the same list when `newSize` is at least the size |
| Batch.Begun | src/batch_exporter.hpp:31-55 | the record after the span writer's constructor: kind server, name, ids, state, parent id set or cleared, start and end times copied, status unset, attributes untouched; no ensures, see `Batch.Span.constructor` and `WriterForgetsSlot` |
| Batch.Stored | src/batch_exporter.hpp:62-81 | the value an attribute call stores in its slot: a string, an int, or element 0 of an array; no ensures, see `ArrayFirst` and `ApplyStep` |
| Batch.Finished | src/batch_exporter.hpp:57-60 | the record after the span writer's destructor: attributes cut to the first `attrSize`; no ensures, see `Batch.Span.Finish` and `WriterForgetsSlot` |
| Batch.Slot | src/batch_exporter.hpp:96-108 | attribute number `attrSize` reuses the existing slot, keeping its value, when the list reaches that far, and is appended with no value otherwise; the key is set and no other slot changes |
| Batch.ArrayFirst | src/batch_exporter.hpp:73-81 | `addArray` sets element 0 of the slot's array to the string, keeps the other elements, and creates an element only when the array has none |
| Batch.Apply | src/batch_exporter.hpp:62-108 | after an attribute call the list reaches past the slot it wrote |
| Batch.Run | src/batch_exporter.hpp:169 | after a sequence of writer calls the list reaches past every slot they wrote |
| Batch.Expected | src/batch_exporter.hpp:57-108 | a fresh record gets one attribute per attribute call |
| Batch.ApplyStep | src/batch_exporter.hpp:62-108 | one writer call adds its entry at index `attrSize`, keeps earlier entries and single-element arrays, sets the status only for `setError`, and leaves the header alone |
| Batch.HasErrorSnoc | src/batch_exporter.hpp:83-87 | the calls include `setError` exactly when the earlier calls do or the last call is `setError` |
| Batch.RunSteps | src/batch_exporter.hpp:62-108 | the writer calls append their entries in call order, the status becomes error exactly when `setError` is called, and the header is untouched |
| Batch.WriterForgetsSlot | src/batch_exporter.hpp:31-108 | constructor, callback calls and destructor leave the same record whatever the reused slot held, given its array values have at most one element (kept by the exporter's invariant): header from the span info, status error exactly when `setError` was called, exactly `attrSize` attributes in call order |
| Batch.Span.constructor | src/batch_exporter.hpp:31-55 | kind SERVER; name, ids, trace state, start and end copied; parent span id set when valid and empty otherwise; status code unset; attributes untouched; `attrSize` 0 |
| Batch.Span.AddKey | src/batch_exporter.hpp:96-108 | takes slot number `attrSize` (reused or appended), sets its key and counts it |
| Batch.Span.AddString | src/batch_exporter.hpp:62-66 | the next slot gets the key and a string value |
| Batch.Span.AddInt | src/batch_exporter.hpp:68-71 | the next slot gets the key and an int value |
| Batch.Span.AddArray | src/batch_exporter.hpp:73-81 | the next slot gets the key and an array whose element 0 is the string |
| Batch.Span.SetError | src/batch_exporter.hpp:83-87 | the status code becomes ERROR and nothing else changes |
| Batch.Span.Finish | src/batch_exporter.hpp:57-60 | the destructor cuts the attribute list to the `attrSize` entries this writer added |
| Batch.Perform | src/batch_exporter.hpp:169 | the callback's writer calls take effect in order |
| Batch.WriteRecord | src/batch_exporter.hpp:166-169 | the record a span writer leaves behind is the filled record, whatever the reused slot held, with single-valued arrays |
| Batch.ResourceAttributes | src/batch_exporter.hpp:124-128 | one string-valued attribute per resource attribute pair, in map order; no ensures, see `ResourceAttributesAt` |
| Batch.NewBuffer | src/batch_exporter.hpp:121-134 | a pooled request as the constructor builds it; no ensures, see `NewBufferShape` and `BuildBuffer` |
| Batch.ResourceAttributesAt | src/batch_exporter.hpp:124-128 | resource attribute `i` is the key of entry `i` of the map with its value as a string |
| Batch.NewBufferShape | src/batch_exporter.hpp:121-134 | a new buffer has one resource block with the map's entries in order, one scope named "nginx" with the server version, and no spans |
| Batch.BuildBuffer | src/batch_exporter.hpp:121-134 | the loop over the resource attributes builds exactly that buffer |
| Batch.Written | src/batch_exporter.hpp:166-167 | the span record at index `currentSize` is overwritten if present and appended otherwise; the other records are kept |
| Batch.BatchExporter.Valid | src/batch_exporter.hpp:149-197 | the exporter's invariant (bounds on `currentSize`, buffers shaped like the template, pool conservation); a predicate with no ensures, kept by every public operation |
| Batch.BatchExporter.constructor | src/batch_exporter.hpp:114-135 | the pool holds exactly `batchCount` identical new buffers, none is in flight and `currentSize` is -1 |
| Batch.BatchExporter.WriteKeepsBuffer | src/batch_exporter.hpp:164-167 | writing a record below the batch size keeps a buffer within its bounds |
| Batch.BatchExporter.WriteKeepsConsistent | src/batch_exporter.hpp:164-173 | writing the record at index `currentSize` keeps the exporter invariant whether or not the span is counted, and extends the accepted spans by the record when it is |
| Batch.BatchExporter.SendBatch | src/batch_exporter.hpp:218-220 | the export client takes the request: it joins the in-flight requests |
| Batch.BatchExporter.Add | src/batch_exporter.hpp:147-174 | refuses exactly when a buffer is needed and the pool is empty, changing nothing else; ships a request with `currentSize == batchSize` first, which for `batchSize > 0` holds exactly `batchSize` accepted spans; the checked-out request's spans become those of the buffer it used, with the record at `currentSize` overwritten by the filled record; appends an accepted span; leaves the accepted spans alone when the callback throws; keeps the invariant (bounds, pool conservation) |
| Batch.BatchExporter.ShipIfFull | src/batch_exporter.hpp:149-152 | a request with `currentSize == batchSize` is shipped and none stays checked out; for `batchSize > 0` it holds exactly its `batchSize` accepted spans |
| Batch.BatchExporter.TakeBuffer | src/batch_exporter.hpp:154-162 | with none checked out the last pooled buffer is taken and `currentSize` becomes 0; with an empty pool nothing changes and the span is refused |
| Batch.BatchExporter.WriteSpan | src/batch_exporter.hpp:164-173 | the record at index `currentSize` is overwritten by the filled record, or appended when the request has no record there, and every other record is kept, whether or not the callback throws; `currentSize` rises by one unless it throws; the accepted spans grow by the filled record exactly when it does not |
| Batch.BatchExporter.Flush | src/batch_exporter.hpp:176-186 | with `currentSize <= 0` nothing changes; otherwise the request is cut to exactly its accepted spans and shipped, and `currentSize` becomes -1 |
| Batch.BatchExporter.Complete | src/batch_exporter.hpp:221-224 | whatever the status, the completed request leaves the in-flight requests and goes back to the end of the pool |

## Left out

- The worker thread, the mutex and the exporter's destructor (client stop and
  join) are not modelled. Each pool push or pop is one atomic step.
- The gRPC export client is not part of this model. Sending is
  `SendBatch`: the request joins `inFlight`. Completion is the separate
  step `Complete(i, ok)`, for any in-flight request `i` in any order.
- Logging an export failure is I/O and is left out. That is all the status
  passed to `Complete` decides.
- The string-splitting helper that `parse` calls is the parameter `split`.
  It is only required to return the exact hyphen-separated fields of a
  header with at most four of them. Nothing is claimed about a header with
  more than three hyphens.
- The hex validation, decoding and lower-case encoding helpers come from
  opentelemetry-cpp and are replaced by the `Hex` module. Decoding accepts
  upper- and lower-case digits; encoding writes lower-case ones.
- The random id generator used by `generate` is not modelled. The new ids
  are the parameters `newTraceId` and `newSpanId`. That a new span id
  differs from the parent's holds only with high probability and is not
  claimed.
- `NGINX_VERSION` comes from a header that is not part of this model. It is
  the constructor parameter `version`.
- The resource attributes come in as a `std::map`. In the model they are the
  map's entries as a sequence, in its key order. The sort order itself is
  not modelled.
- Protobuf storage details are not modelled: `Reserve`, and `RemoveLast`
  keeping cleared objects. The messages hold only the fields the exporter
  writes. The status message, events, links and dropped counts are left
  out.
- The span writer holds a pointer into the checked-out request. In the
  model it holds a copy of the record, which `WriteSpan` writes back after
  the destructor. Pointer aliasing is not modelled.
- After sending, C++ leaves `current` moved-from. The model keeps the old
  value, and the invariant says nothing about `current` while no request is
  checked out.
- The fill callback is arbitrary code. It is modelled as a list of writer
  calls, optionally followed by an exception. An exception thrown part-way
  is the calls made before it, then the throw.
- Batch.BatchExporter.constructor: requires `batchSize < 2^31`. The source
  compares `currentSize` with `(int)batchSize`, and larger sizes would wrap
  that cast. The wrapped behaviour is not modelled.
- The int attribute value is modelled as `int32`, but `currentSize`,
  `attrSize` and `tailSize` in `truncate` are unbounded integers.
  An overflow of `currentSize` needs `batch_size 0` and 2^31 spans without
  a flush; it is not modelled.
- With `batch_size 0`, `currentSize` has no upper bound, and `add` ships a
  request only in one case: the callback threw on a freshly taken buffer,
  so `currentSize` stayed 0 (src/batch_exporter.hpp:159-161, 169-171), which
  equals `(int)batchSize` at the next `add` (src/batch_exporter.hpp:149-152).
  That request is shipped whole. It carries every span record the buffer
  holds: record 0, overwritten by the failed span
  (src/batch_exporter.hpp:166-169), and every record left from the buffer's
  earlier use, since a flushed or shipped buffer returns to the pool with
  all its records (src/batch_exporter.hpp:182, 223). So a span whose
  callback threw is exported, and spans already exported are exported
  again. The model does the same: `Batch.BatchExporter.Add` states that the
  request shipped is the one checked out, for every `batchSize`, and that
  its spans are those of the taken buffer with the record at `currentSize`
  overwritten (`Batch.Written`). The bounds in the invariant hold only for
  `batchSize > 0`.
- Strings are sequences of characters: there is no byte/character
  distinction. All-zero ids are not rejected by `parse` (see above).
- `src/http_module.cpp`, which calls the exporter and the trace-context
  functions from nginx's request phases, is not part of this model.
