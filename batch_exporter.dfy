/** The batching exporter: a pool of reusable export requests, the request
    being filled, the span writer that fills one reusable span record, and
    the hand-over of full requests to the export client. */
module Batch {

  import opened Hex
  import opened TraceContext
  import opened Otlp

  type int32 = x: int | -0x8000_0000 <= x < 0x8000_0000

  /** What the request handler knows about a finished request. */
  datatype SpanInfo = SpanInfo(name: string, trace: TraceContext, parent: SpanId, start: uint64, end: uint64)

  /** One call the per-span callback makes on the span writer. */
  datatype FillOp =
    | AddString(key: string, s: string)
    | AddInt(key: string, i: int32)
    | AddArray(key: string, s: string)
    | SetError

  /** The per-span callback: its calls on the writer, in order, and whether
      it then throws. */
  datatype Fill = Fill(ops: seq<FillOp>, throws: bool)

  /** How `add` ends: it returns true, returns false, or lets the callback's
      exception through. */
  datatype AddOutcome = Accepted | Dropped | Threw

  function Min(a: int, b: int): int { if a <= b then a else b }

  // ------------------------------------------------------------ truncate

  /** `truncate(items, newSize)`: removes elements from the end until at
      most `newSize` are left. */
  method Truncate<T>(items: seq<T>, newSize: int) returns (r: seq<T>)
    requires 0 <= newSize
    ensures |r| == Min(|items|, newSize)
    ensures r == items[..|r|]
    ensures newSize >= |items| ==> r == items
  {
    r := items;
    var tailSize := |items| - newSize;
    while tailSize > 0
      invariant |r| == if tailSize >= 0 then newSize + tailSize else |items|
      invariant tailSize < 0 ==> tailSize == |items| - newSize
      invariant |r| <= |items| && r == items[..|r|]
    {
      tailSize := tailSize - 1;
      r := r[..|r| - 1];
    }
  }

  // ------------------------------------------------- span writer, as values

  /** Every array value in the list has at most one element: the shape
      `addArray` leaves behind. */
  ghost predicate SingleValued(attrs: seq<KeyValue>)
  {
    forall i :: 0 <= i < |attrs| ==> attrs[i].value.ArrayValue? ==> |attrs[i].value.values| <= 1
  }

  /** The record after the `Span` constructor has written its header. */
  function Begun(info: SpanInfo, slot: SpanRecord): SpanRecord
  {
    slot.(kind := Server,
          name := info.name,
          traceId := info.trace.traceId,
          spanId := info.trace.spanId,
          traceState := info.trace.state,
          parentSpanId := if IsValid(info.parent) then info.parent else [],
          start := info.start,
          end := info.end,
          status := Unset)
  }

  /** The private `add(key)`: the slot at index `size` keeps its value and
      gets the key when the list already reaches that far, otherwise a new
      slot with no value is appended. */
  function Slot(attrs: seq<KeyValue>, size: nat, key: string): (r: seq<KeyValue>)
    requires size <= |attrs|
    ensures |r| == if size < |attrs| then |attrs| else size + 1
    ensures r[..size] == attrs[..size]
    ensures size < |attrs| ==> r[size + 1..] == attrs[size + 1..]
    ensures r[size].key == key
    ensures r[size].value == if size < |attrs| then attrs[size].value else NoValue
  {
    if size < |attrs| then attrs[size := attrs[size].(key := key)]
    else attrs + [KeyValue(key, NoValue)]
  }

  /** `addArray`'s value: element 0 of the (kept or new) array becomes the
      string; no element is ever added past the first. */
  function ArrayFirst(v: AnyValue, s: string): (r: AnyValue)
    ensures r.ArrayValue? && |r.values| >= 1 && r.values[0] == StringValue(s)
    ensures |r.values| == if v.ArrayValue? && |v.values| > 0 then |v.values| else 1
    ensures v.ArrayValue? && |v.values| > 0 ==> r.values[1..] == v.values[1..]
  {
    var elems := if v.ArrayValue? then v.values else [];
    ArrayValue(if |elems| > 0 then elems[0 := StringValue(s)] else [StringValue(s)])
  }

  /** The value an attribute call stores over the slot's previous value. */
  function Stored(op: FillOp, previous: AnyValue): AnyValue
    requires !op.SetError?
  {
    match op
    case AddString(_, s) => StringValue(s)
    case AddInt(_, i) => IntValue(i)
    case AddArray(_, s) => ArrayFirst(previous, s)
  }

  /** How many attribute slots a call takes. */
  function Taken(op: FillOp): nat
  {
    if op.SetError? then 0 else 1
  }

  /** The record after one writer call made when `size` attributes have
      been added so far. */
  function Apply(rec: SpanRecord, size: nat, op: FillOp): (r: SpanRecord)
    requires size <= |rec.attributes|
    ensures size + Taken(op) <= |r.attributes|
  {
    if op.SetError? then rec.(status := Error)
    else
      var attrs := Slot(rec.attributes, size, op.key);
      rec.(attributes := attrs[size := attrs[size].(value := Stored(op, attrs[size].value))])
  }

  /** The number of attributes a sequence of calls adds. */
  function Adds(ops: seq<FillOp>): nat
  {
    if ops == [] then 0 else Adds(ops[..|ops| - 1]) + Taken(ops[|ops| - 1])
  }

  /** The record after a sequence of writer calls. */
  function Run(rec: SpanRecord, size: nat, ops: seq<FillOp>): (r: SpanRecord)
    requires size <= |rec.attributes|
    ensures size + Adds(ops) <= |r.attributes|
    decreases |ops|
  {
    if ops == [] then rec
    else
      var n := |ops| - 1;
      Apply(Run(rec, size, ops[..n]), size + Adds(ops[..n]), ops[n])
  }

  /** The record after the `Span` destructor: only the attributes added
      through this writer are left. */
  function Finished(rec: SpanRecord, size: nat): SpanRecord
  {
    rec.(attributes := rec.attributes[..Min(size, |rec.attributes|)])
  }

  /** The attribute a call adds, as it reads in a fresh record. */
  function Entry(op: FillOp): KeyValue
    requires !op.SetError?
  {
    match op
    case AddString(key, s) => KeyValue(key, StringValue(s))
    case AddInt(key, i) => KeyValue(key, IntValue(i))
    case AddArray(key, s) => KeyValue(key, ArrayValue([StringValue(s)]))
  }

  /** The attributes a sequence of calls produces: one entry per attribute
      call, in call order. */
  function Expected(ops: seq<FillOp>): (r: seq<KeyValue>)
    ensures |r| == Adds(ops)
  {
    if ops == [] then []
    else
      var n := |ops| - 1;
      Expected(ops[..n]) + (if ops[n].SetError? then [] else [Entry(ops[n])])
  }

  /** The calls include `setError`. */
  predicate HasError(ops: seq<FillOp>)
  {
    exists i :: 0 <= i < |ops| && ops[i].SetError?
  }

  /** The record a span would have if it were written into a fresh slot. */
  function Filled(info: SpanInfo, ops: seq<FillOp>): SpanRecord
  {
    Begun(info, DefaultSpan).(status := if HasError(ops) then Error else Unset,
                              attributes := Expected(ops))
  }

  /** The two records agree on every field the writer's attribute calls
      leave alone: all but the status and the attributes. */
  predicate SameHeader(a: SpanRecord, b: SpanRecord)
  {
    a.name == b.name && a.traceId == b.traceId && a.spanId == b.spanId &&
    a.traceState == b.traceState && a.parentSpanId == b.parentSpanId &&
    a.kind == b.kind && a.start == b.start && a.end == b.end
  }

  /** One call extends the added attributes by its entry, keeps arrays
      single-valued, sets the status only if it is `setError`, and leaves the
      header alone. */
  lemma ApplyStep(rec: SpanRecord, size: nat, op: FillOp)
    requires size <= |rec.attributes| && SingleValued(rec.attributes)
    ensures var r := Apply(rec, size, op);
      r.attributes[..size + Taken(op)]
        == rec.attributes[..size] + (if op.SetError? then [] else [Entry(op)]) &&
      SingleValued(r.attributes) &&
      SameHeader(r, rec) && r.status == (if op.SetError? then Error else rec.status)
  {
    var r := Apply(rec, size, op);
    if !op.SetError? {
      var attrs := Slot(rec.attributes, size, op.key);
      assert r.attributes == attrs[size := attrs[size].(value := Stored(op, attrs[size].value))];
      assert r.attributes[size] == Entry(op) by {
        if op.AddArray? {
          var v := attrs[size].value;
          if v.ArrayValue? && |v.values| > 0 {
            if size < |rec.attributes| {
              assert v == rec.attributes[size].value;
            }
            assert |v.values| == 1;
          }
        }
      }
      assert r.attributes[..size + 1] == rec.attributes[..size] + [Entry(op)] by {
        assert r.attributes[..size] == attrs[..size];
      }
      forall i | 0 <= i < |r.attributes| && r.attributes[i].value.ArrayValue?
        ensures |r.attributes[i].value.values| <= 1
      {
        if i != size {
          assert r.attributes[i] == rec.attributes[i];
        }
      }
    }
  }

  lemma HasErrorSnoc(ops: seq<FillOp>)
    requires ops != []
    ensures HasError(ops) <==> HasError(ops[..|ops| - 1]) || ops[|ops| - 1].SetError?
  {
    var init := ops[..|ops| - 1];
    if HasError(ops) && !ops[|ops| - 1].SetError? {
      var i :| 0 <= i < |ops| && ops[i].SetError?;
      assert init[i] == ops[i];
    }
    if HasError(init) {
      var i :| 0 <= i < |init| && init[i].SetError?;
      assert ops[i] == init[i];
    }
  }

  /** A sequence of calls appends its expected entries to the attributes
      kept before it starts, keeps arrays single-valued, sets the status to
      error exactly when it calls `setError`, and leaves the header alone. */
  lemma {:induction false} RunSteps(rec: SpanRecord, size: nat, ops: seq<FillOp>)
    requires size <= |rec.attributes| && SingleValued(rec.attributes)
    ensures var r := Run(rec, size, ops);
      r.attributes[..size + Adds(ops)] == rec.attributes[..size] + Expected(ops) &&
      SingleValued(r.attributes) &&
      SameHeader(r, rec) && r.status == (if HasError(ops) then Error else rec.status)
    decreases |ops|
  {
    if ops != [] {
      var n := |ops| - 1;
      var init := ops[..n];
      var k := size + Adds(init);
      RunSteps(rec, size, init);
      var mid := Run(rec, size, init);
      ApplyStep(mid, k, ops[n]);
      HasErrorSnoc(ops);
      var tail := if ops[n].SetError? then [] else [Entry(ops[n])];
      assert Expected(ops) == Expected(init) + tail;
      assert Adds(ops) == Adds(init) + |tail|;
      var r := Run(rec, size, ops);
      assert r == Apply(mid, k, ops[n]);
      assert r.attributes[..size + Adds(ops)] == mid.attributes[..k] + tail;
      Assoc(rec.attributes[..size], Expected(init), tail);
    } else {
      assert !HasError(ops);
      assert rec.attributes[..size] + [] == rec.attributes[..size];
    }
  }

  /** What a span writer leaves behind does not depend on what the reused
      slot held: after the constructor, the callback's calls and the
      destructor, the record equals the one written into a fresh slot. */
  lemma WriterForgetsSlot(info: SpanInfo, slot: SpanRecord, ops: seq<FillOp>)
    requires SingleValued(slot.attributes)
    ensures Finished(Run(Begun(info, slot), 0, ops), Adds(ops)) == Filled(info, ops)
    ensures SingleValued(Filled(info, ops).attributes)
  {
    var b := Begun(info, slot);
    RunSteps(b, 0, ops);
    var r := Run(b, 0, ops);
    assert b.attributes[..0] + Expected(ops) == Expected(ops);
    assert Finished(r, Adds(ops)).attributes == Expected(ops);
    assert Finished(r, Adds(ops)) == Filled(info, ops);
  }

  // --------------------------------------------------------- span writer

  /** `BatchExporter::Span`: the writer over one span record of the request
      being filled. It holds the record while it is written; `add` puts the
      record back into the request when the writer is destroyed. */
  class Span {
    var record: SpanRecord
    var attrSize: nat

    /** The constructor writes the header of a possibly reused record and
      leaves its attributes alone. */
    constructor (info: SpanInfo, slot: SpanRecord)
      ensures record.kind == Server && record.name == info.name
      ensures record.traceId == info.trace.traceId && record.spanId == info.trace.spanId
      ensures record.traceState == info.trace.state
      ensures record.parentSpanId == if IsValid(info.parent) then info.parent else []
      ensures record.start == info.start && record.end == info.end
      ensures record.status == Unset && record.attributes == slot.attributes
      ensures record == Begun(info, slot) && attrSize == 0
    {
      record := Begun(info, slot);
      attrSize := 0;
    }

    /** The private `add(key)`: takes slot number `attrSize`, reusing it if
      the list reaches that far and appending one otherwise, and sets its
      key. Returns the slot's index. */
    method AddKey(key: string) returns (k: nat)
      requires attrSize <= |record.attributes|
      modifies this
      ensures k == old(attrSize) && attrSize == k + 1 && k < |record.attributes|
      ensures record == old(record).(attributes := Slot(old(record.attributes), k, key))
    {
      k := attrSize;
      var attrs := record.attributes;
      if |attrs| > attrSize {
        attrs := attrs[attrSize := attrs[attrSize].(key := key)];
      } else {
        attrs := attrs + [KeyValue(key, NoValue)];
      }
      record := record.(attributes := attrs);
      attrSize := attrSize + 1;
    }

    /** `add(key, string)`. */
    method AddString(key: string, value: string)
      requires attrSize <= |record.attributes|
      modifies this
      ensures attrSize == old(attrSize) + 1
      ensures record == Apply(old(record), old(attrSize), FillOp.AddString(key, value))
    {
      var k := AddKey(key);
      record := record.(attributes := record.attributes[k := record.attributes[k].(value := StringValue(value))]);
    }

    /** `add(key, int)`. */
    method AddInt(key: string, value: int32)
      requires attrSize <= |record.attributes|
      modifies this
      ensures attrSize == old(attrSize) + 1
      ensures record == Apply(old(record), old(attrSize), FillOp.AddInt(key, value))
    {
      var k := AddKey(key);
      record := record.(attributes := record.attributes[k := record.attributes[k].(value := IntValue(value))]);
    }

    /** `addArray(key, value)`: element 0 of the slot's array value is set,
      and created only if the array has no element. */
    method AddArray(key: string, value: string)
      requires attrSize <= |record.attributes|
      modifies this
      ensures attrSize == old(attrSize) + 1
      ensures record == Apply(old(record), old(attrSize), FillOp.AddArray(key, value))
    {
      var k := AddKey(key);
      var v := record.attributes[k].value;
      var elems := if v.ArrayValue? then v.values else [];
      if |elems| > 0 {
        elems := elems[0 := StringValue(value)];
      } else {
        elems := elems + [StringValue(value)];
      }
      assert ArrayValue(elems) == ArrayFirst(v, value);
      record := record.(attributes := record.attributes[k := record.attributes[k].(value := ArrayValue(elems))]);
    }

    /** `setError()`. */
    method SetError()
      requires attrSize <= |record.attributes|
      modifies this
      ensures attrSize == old(attrSize)
      ensures record == Apply(old(record), old(attrSize), FillOp.SetError)
    {
      record := record.(status := Error);
    }

    /** The destructor: drops the attribute slots beyond those this writer
      added, left over from an earlier use of the record. */
    method Finish()
      modifies this
      ensures attrSize == old(attrSize)
      ensures record == Finished(old(record), old(attrSize))
    {
      var attrs := Truncate(record.attributes, attrSize);
      record := record.(attributes := attrs);
    }
  }

  /** The per-span callback: its calls on the writer, made in order. */
  method Perform(span: Span, ops: seq<FillOp>)
    requires span.attrSize <= |span.record.attributes|
    modifies span
    ensures span.attrSize == old(span.attrSize) + Adds(ops)
    ensures span.record == Run(old(span.record), old(span.attrSize), ops)
  {
    for j := 0 to |ops|
      invariant span.attrSize == old(span.attrSize) + Adds(ops[..j])
      invariant span.record == Run(old(span.record), old(span.attrSize), ops[..j])
    {
      assert ops[..j + 1][..j] == ops[..j];
      match ops[j]
      case AddString(key, s) => span.AddString(key, s);
      case AddInt(key, i) => span.AddInt(key, i);
      case AddArray(key, s) => span.AddArray(key, s);
      case SetError => span.SetError();
    }
    assert ops[..|ops|] == ops;
  }

  /** The life of one span writer: made over `slot`, filled by the callback's
    calls, destroyed. Whatever the slot held before, the record left behind
    is the one the calls describe. */
  method WriteRecord(info: SpanInfo, slot: SpanRecord, ops: seq<FillOp>) returns (rec: SpanRecord)
    requires SingleValued(slot.attributes)
    ensures rec == Filled(info, ops)
    ensures SingleValued(rec.attributes)
  {
    var span := new Span(info, slot);
    Perform(span, ops);
    span.Finish();
    WriterForgetsSlot(info, slot, ops);
    rec := span.record;
  }

  // -------------------------------------------------------- request pool

  /** The resource attributes, one string-valued entry per pair, in the
      order given. */
  function ResourceAttributes(pairs: seq<(string, string)>): seq<KeyValue>
  {
    if pairs == [] then []
    else
      var n := |pairs| - 1;
      ResourceAttributes(pairs[..n]) + [KeyValue(pairs[n].0, StringValue(pairs[n].1))]
  }

  /** A pooled request as the exporter's constructor builds it. */
  function NewBuffer(resourceAttrs: seq<(string, string)>, version: string): Request
  {
    Request([ResourceSpans(ResourceAttributes(resourceAttrs), [ScopeSpans(Scope("nginx", version), [])])])
  }

  /** A new buffer has one resource block carrying the resource attributes
      in order, one scope named "nginx" with the server version, and no
      spans. */
  lemma {:induction false} NewBufferShape(resourceAttrs: seq<(string, string)>, version: string)
    ensures var b := NewBuffer(resourceAttrs, version);
      HasSpans(b) && GetSpans(b) == [] &&
      |b.resourceSpans| == 1 && |b.resourceSpans[0].scopeSpans| == 1 &&
      b.resourceSpans[0].scopeSpans[0].scope == Scope("nginx", version) &&
      |b.resourceSpans[0].resource| == |resourceAttrs| &&
      forall i :: 0 <= i < |resourceAttrs| ==>
        b.resourceSpans[0].resource[i] == KeyValue(resourceAttrs[i].0, StringValue(resourceAttrs[i].1))
  {
    ResourceAttributesAt(resourceAttrs);
  }

  lemma {:induction false} ResourceAttributesAt(pairs: seq<(string, string)>)
    ensures |ResourceAttributes(pairs)| == |pairs|
    ensures forall i :: 0 <= i < |pairs| ==>
      ResourceAttributes(pairs)[i] == KeyValue(pairs[i].0, StringValue(pairs[i].1))
  {
    if pairs != [] {
      var n := |pairs| - 1;
      ResourceAttributesAt(pairs[..n]);
      forall i | 0 <= i < n
        ensures ResourceAttributes(pairs)[i] == KeyValue(pairs[i].0, StringValue(pairs[i].1))
      {
        assert pairs[..n][i] == pairs[i];
      }
    }
  }

  /** One iteration of the constructor's pool loop: a request with one
      resource block, its attributes copied from the map in order, and one
      scope. */
  method BuildBuffer(resourceAttrs: seq<(string, string)>, version: string) returns (req: Request)
    ensures req == NewBuffer(resourceAttrs, version)
  {
    var attrs: seq<KeyValue> := [];
    for i := 0 to |resourceAttrs|
      invariant attrs == ResourceAttributes(resourceAttrs[..i])
    {
      assert resourceAttrs[..i + 1][..i] == resourceAttrs[..i];
      attrs := attrs + [KeyValue(resourceAttrs[i].0, StringValue(resourceAttrs[i].1))];
    }
    assert resourceAttrs[..|resourceAttrs|] == resourceAttrs;
    req := Request([ResourceSpans(attrs, [ScopeSpans(Scope("nginx", version), [])])]);
  }

  /** The spans of a request after the record for span number `at` is
      written: the existing record there is overwritten, or one is appended
      when the list is exactly `at` long. */
  function Written(spans: seq<SpanRecord>, at: nat, rec: SpanRecord): (r: seq<SpanRecord>)
    requires at <= |spans|
    ensures |r| == if at < |spans| then |spans| else at + 1
    ensures r[..at] == spans[..at] && r[at] == rec
    ensures at < |spans| ==> r[at + 1..] == spans[at + 1..]
  {
    if at < |spans| then spans[at := rec] else spans + [rec]
  }

  // ------------------------------------------------------------ exporter

  /** `BatchExporter`. `free` is the pool, `current` the request being
      filled, `currentSize` the number of spans accepted into it (-1 when no
      request is checked out), and `inFlight` the requests handed to the
      export client whose completion has not come back yet. */
  class BatchExporter {
    const batchSize: nat
    ghost const batchCount: nat
    /** The request every pooled buffer is built as. */
    ghost const template: Request

    var free: seq<Request>
    var inFlight: seq<Request>
    var current: Request
    var currentSize: int

    /** A buffer of this exporter: the template with some spans, at most a
      batch of them, every one with single-valued arrays. */
    ghost predicate Buffer(b: Request)
    {
      HasSpans(template) && HasSpans(b) && b == WithSpans(template, GetSpans(b)) &&
      (batchSize > 0 ==> |GetSpans(b)| <= batchSize) &&
      forall j :: 0 <= j < |GetSpans(b)| ==> SingleValued(GetSpans(b)[j].attributes)
    }

    /** The exporter's invariant, stated on values for the pool, the
      in-flight requests, the current request and its span count. */
    ghost predicate Consistent(pool: seq<Request>, sent: seq<Request>, cur: Request, size: int)
    {
      HasSpans(template) && GetSpans(template) == [] &&
      batchSize < 0x8000_0000 &&
      -1 <= size &&
      (batchSize > 0 ==> size <= batchSize) &&
      (forall i :: 0 <= i < |pool| ==> Buffer(pool[i])) &&
      (forall i :: 0 <= i < |sent| ==> Buffer(sent[i])) &&
      (size >= 0 ==> Buffer(cur) && size <= |GetSpans(cur)|) &&
      |pool| + |sent| + (if size >= 0 then 1 else 0) == batchCount
    }

    ghost predicate Valid()
      reads this
    {
      Consistent(free, inFlight, current, currentSize)
    }

    /** The spans accepted into the checked-out request. */
    ghost function Pending(): seq<SpanRecord>
      reads this
      requires Valid()
    {
      if currentSize >= 0 then GetSpans(current)[..currentSize] else []
    }

    /** The constructor fills the pool with `batchCount` new buffers. */
    constructor (batchSize: nat, batchCount: nat, resourceAttrs: seq<(string, string)>, version: string)
      requires batchSize < 0x8000_0000
      ensures Valid()
      ensures this.batchSize == batchSize && this.batchCount == batchCount
      ensures template == NewBuffer(resourceAttrs, version)
      ensures |free| == batchCount
      ensures forall i :: 0 <= i < |free| ==> free[i] == NewBuffer(resourceAttrs, version)
      ensures inFlight == [] && currentSize == -1 && Pending() == []
    {
      this.batchSize := batchSize;
      this.batchCount := batchCount;
      template := NewBuffer(resourceAttrs, version);
      free := [];
      inFlight := [];
      current := Request([]);
      currentSize := -1;
      new;
      NewBufferShape(resourceAttrs, version);
      SpansRoundTrip(template, [], []);
      var n := batchCount;
      while n > 0
        invariant 0 <= n <= batchCount && |free| == batchCount - n
        invariant forall i :: 0 <= i < |free| ==> free[i] == template
        invariant inFlight == [] && currentSize == -1
      {
        var b := BuildBuffer(resourceAttrs, version);
        free := free + [b];
        n := n - 1;
      }
    }

    /** Writing one span record into a buffer at a position below the batch
      size keeps it a buffer. */
    lemma WriteKeepsBuffer(b: Request, at: nat, rec: SpanRecord)
      requires Buffer(b) && at <= |GetSpans(b)|
      requires batchSize > 0 ==> at < batchSize
      requires SingleValued(rec.attributes)
      ensures Buffer(WithSpans(b, Written(GetSpans(b), at, rec)))
      ensures GetSpans(WithSpans(b, Written(GetSpans(b), at, rec))) == Written(GetSpans(b), at, rec)
    {
      var spans := Written(GetSpans(b), at, rec);
      SpansRoundTrip(template, spans, GetSpans(b));
      SpansRoundTrip(b, spans, spans);
      forall j | 0 <= j < |spans| ensures SingleValued(spans[j].attributes) {
        if j != at {
          assert spans[j] == GetSpans(b)[j];
        }
      }
    }

    /** Writing the record for span number `size` keeps the invariant,
      whether the span is then counted or not, and extends the accepted
      spans by that record when it is. */
    lemma WriteKeepsConsistent(pool: seq<Request>, sent: seq<Request>, cur: Request, size: int, rec: SpanRecord)
      requires Consistent(pool, sent, cur, size) && size >= 0
      requires batchSize > 0 ==> size < batchSize
      requires SingleValued(rec.attributes)
      ensures var next := WithSpans(cur, Written(GetSpans(cur), size, rec));
        Consistent(pool, sent, next, size) && Consistent(pool, sent, next, size + 1) &&
        GetSpans(next)[..size] == GetSpans(cur)[..size] &&
        GetSpans(next)[..size + 1] == GetSpans(cur)[..size] + [rec]
    {
      WriteKeepsBuffer(cur, size, rec);
      var written := Written(GetSpans(cur), size, rec);
      assert written[..size + 1] == GetSpans(cur)[..size] + [rec];
    }

    /** `sendBatch(current)`: the export client takes the request. */
    method SendBatch()
      modifies this`inFlight
      ensures inFlight == old(inFlight) + [current]
    {
      inFlight := inFlight + [current];
    }

    /** `add(info, fillSpan)`. A full request is shipped first; then a
      buffer is taken from the pool if none is checked out, and refused if
      the pool is empty; then the span record at index `currentSize` is
      written by the callback and, unless the callback throws, accepted. */
    method Add(info: SpanInfo, fill: Fill) returns (outcome: AddOutcome)
      requires Valid()
      modifies this
      ensures Valid()
      ensures var ship := old(currentSize) == batchSize;
        inFlight == old(inFlight) + (if ship then [old(current)] else [])
      ensures var needBuffer := old(currentSize) == batchSize || old(currentSize) == -1;
        (outcome == Dropped <==> needBuffer && old(free) == []) &&
        (outcome == Dropped ==> free == old(free) && currentSize == -1) &&
        (outcome == Dropped && old(currentSize) == -1 ==> current == old(current)) &&
        (outcome != Dropped ==> free == if needBuffer then old(free)[..|old(free)| - 1] else old(free))
      ensures outcome != Dropped ==> (outcome == Accepted <==> !fill.throws)
      ensures var needBuffer := old(currentSize) == batchSize || old(currentSize) == -1;
        var before := if needBuffer then [] else old(Pending());
        (outcome == Accepted ==> currentSize == |before| + 1 && Pending() == before + [Filled(info, fill.ops)]) &&
        (outcome == Threw ==> currentSize == |before| && Pending() == before)
      ensures old(currentSize) == batchSize > 0 ==>
        |GetSpans(old(current))| == batchSize && GetSpans(old(current)) == old(Pending())
      ensures var needBuffer := old(currentSize) == batchSize || old(currentSize) == -1;
        outcome != Dropped ==>
          var taken := if needBuffer then old(free)[|old(free)| - 1] else old(current);
          var at := if needBuffer then 0 else old(currentSize);
          HasSpans(taken) && HasSpans(current) &&
          GetSpans(current) == Written(GetSpans(taken), at, Filled(info, fill.ops))
    {
      ghost var needBuffer := currentSize == batchSize || currentSize == -1;
      ghost var taken := if needBuffer && free != [] then free[|free| - 1] else current;
      ghost var at := if needBuffer then 0 else currentSize;
      ghost var before := if needBuffer then [] else Pending();
      ghost var shipped := inFlight + (if currentSize == batchSize then [current] else []);
      ShipIfFull();
      assert inFlight == shipped;
      var ok := TakeBuffer();
      if !ok {
        return Dropped;
      }
      assert current == taken && currentSize == at && Pending() == before;
      var accepted := WriteSpan(info, fill);
      outcome := if accepted then Accepted else Threw;
    }

    /** The first block of `add`: a request holding a full batch is shipped
      and no request is checked out any more. A shipped batch holds exactly
      the accepted spans, `batchSize` of them. */
    method ShipIfFull()
      requires Valid()
      modifies this`inFlight, this`currentSize
      ensures Valid()
      ensures old(currentSize) == batchSize ==> inFlight == old(inFlight) + [current] && currentSize == -1
      ensures old(currentSize) != batchSize ==> inFlight == old(inFlight) && currentSize == old(currentSize)
      ensures old(currentSize) == batchSize > 0 ==>
        |GetSpans(current)| == batchSize && GetSpans(current) == old(Pending())
    {
      if currentSize == batchSize {
        assert currentSize >= 0 ==> GetSpans(current)[..currentSize] == old(Pending());
        SendBatch();
        currentSize := -1;
      }
    }

    /** The second block of `add`: with no request checked out, the last
      pooled buffer is taken, or the span is refused when the pool is empty. */
    method TakeBuffer() returns (ok: bool)
      requires Valid() && currentSize != batchSize
      modifies this`free, this`current, this`currentSize
      ensures Valid()
      ensures ok <==> old(currentSize) >= 0 || old(free) != []
      ensures !ok || old(currentSize) >= 0 ==>
        free == old(free) && current == old(current) && currentSize == old(currentSize)
      ensures ok && old(currentSize) == -1 ==>
        current == old(free)[|old(free)| - 1] && free == old(free)[..|old(free)| - 1] && currentSize == 0
      ensures ok ==> currentSize >= 0 && (batchSize > 0 ==> currentSize < batchSize)
    {
      ok := true;
      if currentSize == -1 {
        if free == [] {
          return false;
        }
        current := free[|free| - 1];
        free := free[..|free| - 1];
        currentSize := 0;
      }
    }

    /** The rest of `add`: the span writer is made over record number
      `currentSize`, reused or appended, the callback runs, the writer is
      destroyed, and the span is counted unless the callback threw. */
    method WriteSpan(info: SpanInfo, fill: Fill) returns (accepted: bool)
      requires Valid() && currentSize >= 0 && (batchSize > 0 ==> currentSize < batchSize)
      modifies this`current, this`currentSize
      ensures Valid()
      ensures accepted == !fill.throws
      ensures currentSize == old(currentSize) + (if accepted then 1 else 0)
      ensures Pending() == old(Pending()) + (if accepted then [Filled(info, fill.ops)] else [])
      ensures HasSpans(current) && old(currentSize) <= |old(GetSpans(current))|
      ensures GetSpans(current) == Written(old(GetSpans(current)), old(currentSize), Filled(info, fill.ops))
    {
      ghost var before := Pending();
      var spans := GetSpans(current);
      assert before == spans[..currentSize];
      var slot := if |spans| > currentSize then spans[currentSize] else DefaultSpan;
      var rec := WriteRecord(info, slot, fill.ops);
      WriteKeepsConsistent(free, inFlight, current, currentSize, rec);
      SpansRoundTrip(current, Written(spans, currentSize, rec), spans);
      current := WithSpans(current, Written(spans, currentSize, rec));
      accepted := !fill.throws;
      if accepted {
        currentSize := currentSize + 1;
        assert Pending() == before + [rec];
      } else {
        assert Pending() == before;
      }
    }
 
    /** `flush()`: a request with accepted spans is cut down to them and
      shipped; with none accepted, or none checked out, nothing happens. */
    method Flush()
      requires Valid()
      modifies this`current, this`inFlight, this`currentSize
      ensures Valid()
      ensures free == old(free)
      ensures old(currentSize) <= 0 ==>
        inFlight == old(inFlight) && current == old(current) && currentSize == old(currentSize)
      ensures old(currentSize) > 0 ==>
        currentSize == -1 &&
        inFlight == old(inFlight) + [WithSpans(old(current), old(Pending()))] &&
        |GetSpans(inFlight[|inFlight| - 1])| == old(currentSize)
    {
      if currentSize <= 0 {
        return;
      }
      var spans := Truncate(GetSpans(current), currentSize);
      SpansRoundTrip(template, spans, GetSpans(current));
      SpansRoundTrip(current, spans, spans);
      current := WithSpans(current, spans);
      SendBatch();
      currentSize := -1;
    }

    /** The completion callback of a shipped request: whatever the status,
      which only decides whether a failure is logged, the request goes back
      to the pool. */
    method Complete(i: nat, ok: bool)
      requires Valid() && i < |inFlight|
      modifies this`free, this`inFlight
      ensures Valid()
      ensures free == old(free) + [old(inFlight[i])]
      ensures inFlight == old(inFlight[..i] + inFlight[i + 1..])
    {
      free := free + [inFlight[i]];
      inFlight := inFlight[..i] + inFlight[i + 1..];
    }
  }
}
