/** The part of the OTLP trace export message the exporter writes: an export
    request holds resource blocks, each holding scope blocks, each holding
    span records. Repeated fields are sequences. */
module Otlp {

  import opened Hex

  type uint64 = x: int | 0 <= x < 0x1_0000_0000_0000_0000

  /** `AnyValue`: `NoValue` is a value message whose oneof is not set. */
  datatype AnyValue =
    | NoValue
    | StringValue(s: string)
    | IntValue(i: int)
    | ArrayValue(values: seq<AnyValue>)

  datatype KeyValue = KeyValue(key: string, value: AnyValue)

  datatype SpanKind = Unspecified | Internal | Server | Client | Producer | Consumer

  datatype StatusCode = Unset | Ok | Error

  /** One span of the batch. */
  datatype SpanRecord = SpanRecord(
    name: string,
    traceId: seq<byte>,
    spanId: seq<byte>,
    traceState: string,
    parentSpanId: seq<byte>,
    kind: SpanKind,
    start: uint64,
    end: uint64,
    status: StatusCode,
    attributes: seq<KeyValue>)

  /** A span record as a repeated field's `Add()` creates it. */
  const DefaultSpan: SpanRecord := SpanRecord("", [], [], "", [], Unspecified, 0, 0, Unset, [])

  datatype Scope = Scope(name: string, version: string)

  datatype ScopeSpans = ScopeSpans(scope: Scope, spans: seq<SpanRecord>)

  datatype ResourceSpans = ResourceSpans(resource: seq<KeyValue>, scopeSpans: seq<ScopeSpans>)

  /** `ExportTraceServiceRequest`. */
  datatype Request = Request(resourceSpans: seq<ResourceSpans>)

  /** The request has a first resource block with a first scope block. */
  predicate HasSpans(req: Request)
  {
    |req.resourceSpans| > 0 && |req.resourceSpans[0].scopeSpans| > 0
  }

  /** `getSpans(req)`: the spans of the first scope of the first resource. */
  function GetSpans(req: Request): seq<SpanRecord>
    requires HasSpans(req)
  {
    req.resourceSpans[0].scopeSpans[0].spans
  }

  /** The request with the spans `getSpans` designates replaced by `spans`. */
  function WithSpans(req: Request, spans: seq<SpanRecord>): (r: Request)
    requires HasSpans(req)
    ensures HasSpans(r)
  {
    var rs := req.resourceSpans[0];
    var ss := rs.scopeSpans[0];
    Request(req.resourceSpans[0 := rs.(scopeSpans := rs.scopeSpans[0 := ss.(spans := spans)])])
  }

  /** Writing through `getSpans` is read back by `getSpans`, writing back what
      was read changes nothing, and a second write overrides the first. */
  lemma SpansRoundTrip(req: Request, spans: seq<SpanRecord>, other: seq<SpanRecord>)
    requires HasSpans(req)
    ensures GetSpans(WithSpans(req, spans)) == spans
    ensures WithSpans(req, GetSpans(req)) == req
    ensures WithSpans(WithSpans(req, other), spans) == WithSpans(req, spans)
  {
    var rs := req.resourceSpans[0];
    assert rs.scopeSpans[0 := rs.scopeSpans[0]] == rs.scopeSpans;
    assert req.resourceSpans[0 := rs] == req.resourceSpans;
    var ss := rs.scopeSpans[0];
    var inner := WithSpans(req, other).resourceSpans[0];
    assert inner.scopeSpans[0 := ss.(spans := spans)] == rs.scopeSpans[0 := ss.(spans := spans)];
    assert inner.(scopeSpans := inner.scopeSpans[0 := ss.(spans := spans)])
        == rs.(scopeSpans := rs.scopeSpans[0 := ss.(spans := spans)]);
  }

  /** Everything outside the designated spans is left alone. */
  lemma WithSpansKeepsRest(req: Request, spans: seq<SpanRecord>)
    requires HasSpans(req)
    ensures |WithSpans(req, spans).resourceSpans| == |req.resourceSpans|
    ensures WithSpans(req, spans).resourceSpans[1..] == req.resourceSpans[1..]
    ensures WithSpans(req, spans).resourceSpans[0].resource == req.resourceSpans[0].resource
    ensures WithSpans(req, spans).resourceSpans[0].scopeSpans[0].scope == req.resourceSpans[0].scopeSpans[0].scope
    ensures WithSpans(req, spans).resourceSpans[0].scopeSpans[1..] == req.resourceSpans[0].scopeSpans[1..]
  {
  }
}
