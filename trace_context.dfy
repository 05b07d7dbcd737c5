/** The W3C Trace Context `traceparent` value type (section 3.2 of the W3C
    Trace Context Recommendation): generation of child identities, parsing
    of an inbound header and serialization of an outbound one. The
    `tracestate` header (section 3.3) is carried through as an opaque
    string and never parsed. */
module TraceContext {
  import opened Hex
  import opened StrView

  /** Lengths, in characters, of the hexadecimal fields of `traceparent`. */
  const TraceIdSize: nat := 32
  const SpanIdSize: nat := 16
  const TraceFlagsSize: nat := 2

  /** Length of a serialized `traceparent`: "00-", trace id, "-", span id,
      "-", flags. */
  const Size: nat := 55

  type TraceId = s: seq<byte> | |s| == 16 witness seq(16, _ => 0)
  type SpanId = s: seq<byte> | |s| == 8 witness seq(8, _ => 0)

  const ZeroTraceId: TraceId := seq(16, _ => 0)
  const ZeroSpanId: SpanId := seq(8, _ => 0)

  /** An identifier is valid unless every byte of it is zero. */
  predicate IsValid(id: seq<byte>)
  {
    exists i :: 0 <= i < |id| && id[i] != 0
  }

  datatype TraceContext = TraceContext(
    traceId: TraceId,
    spanId: SpanId,
    sampled: bool,
    state: string)

  /** `TraceContext{}`: zero identifiers, not sampled, empty state. This is
      what `parse` answers for every header it does not accept. */
  const Empty: TraceContext := TraceContext(ZeroTraceId, ZeroSpanId, false, "")

  lemma EmptyIsInvalid()
    ensures !IsValid(Empty.traceId) && !IsValid(Empty.spanId)
  {
  }

  // ---------------------------------------------------------------- generate

  /** `generate(sampled, parent)`. The identifiers the random generator
      would draw are the parameters `newTraceId` and `newSpanId`. */
  function Generate(sampled: bool, parent: TraceContext, newTraceId: TraceId, newSpanId: SpanId)
    : (tc: TraceContext)
    ensures IsValid(parent.traceId) ==> tc.traceId == parent.traceId
    ensures !IsValid(parent.traceId) ==> tc.traceId == newTraceId
    ensures tc.spanId == newSpanId
    ensures tc.sampled == sampled && tc.state == parent.state
  {
    TraceContext(
      if IsValid(parent.traceId) then parent.traceId else newTraceId,
      newSpanId,
      sampled,
      parent.state)
  }

  /** With the default parent `TraceContext{}` a new trace is started and
      the state is empty. */
  lemma GenerateRoot(sampled: bool, newTraceId: TraceId, newSpanId: SpanId)
    ensures Generate(sampled, Empty, newTraceId, newSpanId)
         == TraceContext(newTraceId, newSpanId, sampled, "")
  {
    EmptyIsInvalid();
  }

  // ------------------------------------------------------------- splitting

  /** Number of hyphens in `s`. */
  function Hyphens(s: string): nat
  {
    if s == [] then 0 else (if s[0] == '-' then 1 else 0) + Hyphens(s[1..])
  }

  /** Position of the first hyphen of `s`. */
  function FirstHyphen(s: string): (i: nat)
    requires '-' in s
    ensures i < |s| && s[i] == '-' && '-' !in s[..i]
  {
    if s[0] == '-' then 0
    else
      assert '-' in s[1..] by { var k :| 0 <= k < |s| && s[k] == '-'; assert s[1..][k - 1] == '-'; }
      var j := FirstHyphen(s[1..]);
      assert s[..j + 1] == [s[0]] + s[1..][..j];
      j + 1
  }

  /** The hyphen-separated fields of `s`, all of them. */
  function Fields(s: string): (r: seq<string>)
    ensures |r| >= 1
    decreases |s|
  {
    if '-' in s then
      var i := FirstHyphen(s);
      [s[..i]] + Fields(s[i + 1..])
    else
      [s]
  }

  /** The string-splitting helper `parse` relies on. It is not part of this
      model: all that is assumed of it is that it yields exactly the
      hyphen-separated fields of a header that has at most four of them. */
  type Splitter = string -> seq<string>

  ghost predicate SplitsAsWritten(split: Splitter)
  {
    forall s :: |Fields(s)| <= 4 ==> split(s) == Fields(s)
  }

  /** The exact splitter meets that requirement. */
  lemma FieldsSplitsAsWritten()
    ensures SplitsAsWritten(Fields)
  {
  }

  // ---------------------------------------------------------------- parse

  /** The sampled bit of the trace-flags byte. */
  function IsSampled(flags: byte): bool
  {
    flags % 2 == 1
  }

  /** `parse(trace, state)`: validates and decodes a `traceparent` value.
      It never fails; every rejected header yields `Empty`. */
  function Parse(split: Splitter, trace: string, state: string): (tc: TraceContext)
  {
    var parts := split(trace);
    if |parts| != 4 then Empty
    else
      var version, traceId, spanId, flags := parts[0], parts[1], parts[2], parts[3];
      if version != "00" then Empty
      else if |traceId| != TraceIdSize || |spanId| != SpanIdSize || |flags| != TraceFlagsSize then Empty
      else if !IsHex(traceId) || !IsHex(spanId) || !IsHex(flags) then Empty
      else TraceContext(Decode(traceId), Decode(spanId), IsSampled(Decode(flags)[0]), state)
  }

  /** A `traceparent` value built from four fields. */
  function Join(version: string, traceId: string, spanId: string, flags: string): string
  {
    version + "-" + traceId + "-" + spanId + "-" + flags
  }

  /** The first field of a string with a hyphen in it is followed by that
      hyphen. */
  lemma FieldsHead(s: string)
    requires |Fields(s)| > 1
    ensures StartsWith(s, Fields(s)[0] + "-")
  {
    var i := FirstHyphen(s);
    assert s[..i + 1] == s[..i] + "-";
  }

  lemma HyphensConcat(a: string, b: string)
    ensures Hyphens(a + b) == Hyphens(a) + Hyphens(b)
  {
    if a != [] {
      assert (a + b)[1..] == a[1..] + b;
      HyphensConcat(a[1..], b);
    } else {
      assert a + b == b;
    }
  }

  lemma NoHyphens(a: string)
    requires '-' !in a
    ensures Hyphens(a) == 0
  {
    if a != [] {
      NoHyphens(a[1..]);
    }
  }

  /** A string has one field more than it has hyphens. */
  lemma {:induction false} FieldCount(s: string)
    ensures |Fields(s)| == Hyphens(s) + 1
    decreases |s|
  {
    if '-' in s {
      var i := FirstHyphen(s);
      assert s == s[..i] + ([s[i]] + s[i + 1..]);
      HyphensConcat(s[..i], [s[i]] + s[i + 1..]);
      HyphensConcat([s[i]], s[i + 1..]);
      NoHyphens(s[..i]);
      FieldCount(s[i + 1..]);
    } else {
      NoHyphens(s);
    }
  }

  /** Splitting at a first hyphen. */
  lemma FieldsCons(a: string, b: string)
    requires '-' !in a
    ensures Fields(a + "-" + b) == [a] + Fields(b)
  {
    var s := a + "-" + b;
    assert s[|a|] == '-';
    var i := FirstHyphen(s);
    assert s[..i] == a;
    assert s[i + 1..] == b;
  }

  /** Hexadecimal text has no hyphen in it. */
  lemma HexHasNoHyphen(s: string)
    requires IsHex(s)
    ensures '-' !in s
  {
  }

  lemma SeqOfFour(a: string, b: string, c: string, d: string)
    ensures [a] + ([b] + [c, d]) == [a, b, c, d]
  {
  }

  lemma JoinNested(version: string, traceId: string, spanId: string, flags: string)
    ensures Join(version, traceId, spanId, flags)
         == version + "-" + (traceId + "-" + (spanId + "-" + flags))
  {
  }

  /** Four hyphen-free fields joined by hyphens split back into themselves. */
  lemma FieldsJoin(version: string, traceId: string, spanId: string, flags: string)
    requires '-' !in version && '-' !in traceId && '-' !in spanId && '-' !in flags
    ensures Fields(Join(version, traceId, spanId, flags)) == [version, traceId, spanId, flags]
  {
    var tail := spanId + "-" + flags;
    var mid := traceId + "-" + tail;
    var whole := version + "-" + mid;
    JoinNested(version, traceId, spanId, flags);
    var f3 := Fields(tail);
    FieldsCons(spanId, flags);
    assert f3 == [spanId, flags];
    var f2 := Fields(mid);
    FieldsCons(traceId, tail);
    assert f2 == [traceId] + f3;
    FieldsCons(version, mid);
    assert Fields(whole) == [version] + f2;
    SeqOfFour(version, traceId, spanId, flags);
  }

  /** `parse` rejects a header with fewer than three hyphens, that is with
      fewer than four fields. */
  lemma ParseRejectsFieldCount(split: Splitter, trace: string, state: string)
    requires SplitsAsWritten(split)
    requires Hyphens(trace) < 3
    ensures Parse(split, trace, state) == Empty
  {
    FieldCount(trace);
  }

  /** `parse` rejects a four-field header that does not start with "00-". */
  lemma ParseRejectsVersion(split: Splitter, trace: string, state: string)
    requires SplitsAsWritten(split)
    requires Hyphens(trace) == 3 && !StartsWith(trace, "00-")
    ensures Parse(split, trace, state) == Empty
  {
    FieldCount(trace);
    FieldsHead(trace);
  }

  /** `parse` rejects a header whose trace id is not 32 characters long, or
      whose span id is not 16, or whose flags are not 2. */
  lemma ParseRejectsLength(split: Splitter, version: string, traceId: string, spanId: string,
                           flags: string, state: string)
    requires SplitsAsWritten(split)
    requires '-' !in version && '-' !in traceId && '-' !in spanId && '-' !in flags
    requires |traceId| != 32 || |spanId| != 16 || |flags| != 2
    ensures Parse(split, Join(version, traceId, spanId, flags), state) == Empty
  {
    FieldsJoin(version, traceId, spanId, flags);
  }

  /** `parse` rejects a header with a character other than a hexadecimal
      digit in its trace id, span id or flags. */
  lemma ParseRejectsNonHex(split: Splitter, version: string, traceId: string, spanId: string,
                           flags: string, state: string)
    requires SplitsAsWritten(split)
    requires '-' !in version && '-' !in traceId && '-' !in spanId && '-' !in flags
    requires !IsHex(traceId) || !IsHex(spanId) || !IsHex(flags)
    ensures Parse(split, Join(version, traceId, spanId, flags), state) == Empty
  {
    FieldsJoin(version, traceId, spanId, flags);
  }

  /** A well-formed header is decoded: the identifiers from hex, `sampled`
      from the low bit of the flags byte (the parity of its second digit),
      and `state` passed through unchanged. */
  lemma ParseAccepts(split: Splitter, traceId: string, spanId: string, flags: string, state: string)
    requires SplitsAsWritten(split)
    requires |traceId| == 32 && |spanId| == 16 && |flags| == 2
    requires IsHex(traceId) && IsHex(spanId) && IsHex(flags)
    ensures Parse(split, Join("00", traceId, spanId, flags), state)
         == TraceContext(Decode(traceId), Decode(spanId), HexValue(flags[1]) % 2 == 1, state)
  {
    HexHasNoHyphen(traceId);
    HexHasNoHyphen(spanId);
    HexHasNoHyphen(flags);
    FieldsJoin("00", traceId, spanId, flags);
    DecodeLowBit(flags);
  }

  // ------------------------------------------------------------- serialize

  /** The 55 characters `serialize` writes for `tc`. */
  function Header(tc: TraceContext): (h: string)
    ensures |h| == Size
  {
    "00-" + Encode(tc.traceId) + "-" + Encode(tc.spanId) + "-0" + [if tc.sampled then '1' else '0']
  }

  /** The flags field `serialize` writes: only the sampled bit. */
  function FlagsText(sampled: bool): (f: string)
    ensures |f| == TraceFlagsSize && IsLowerHex(f) && IsHex(f)
    ensures HexValue(f[1]) % 2 == 1 <==> sampled
  {
    "0" + [if sampled then '1' else '0']
  }

  /** The header is "00", the lower-case trace id, the lower-case span id and
      the flags, joined by hyphens. */
  lemma HeaderJoin(tc: TraceContext)
    ensures Header(tc) == Join("00", Encode(tc.traceId), Encode(tc.spanId), FlagsText(tc.sampled))
  {
    Regroup(Encode(tc.traceId), Encode(tc.spanId), if tc.sampled then '1' else '0');
  }

  lemma Regroup(x: string, y: string, c: char)
    ensures "00-" + x + "-" + y + "-0" + [c] == "00" + "-" + x + "-" + y + "-" + ("0" + [c])
  {
    assert "00-" == "00" + "-";
    assert "-0" + [c] == "-" + ("0" + [c]);
  }

  /** Where the fields of a `traceparent` value with a two-character version
      and identifiers of the standard lengths sit. */
  lemma JoinSlices(v: string, x: string, y: string, f: string)
    requires |v| == 2 && |x| == TraceIdSize && |y| == SpanIdSize
    ensures var h := Join(v, x, y, f);
      h[..3] == v + "-" && h[3..35] == x && h[35] == '-' && h[36..52] == y && h[52] == '-' && h[53..] == f
  {
    var h := Join(v, x, y, f);
    assert h == (v + "-") + x + ("-" + y + "-" + f);
  }

  /** Where each part of the header sits: the version at 0..2, the trace id
      at 3..34, the span id at 36..51 and the flags at 53..54, all digits
      lower-case. */
  lemma HeaderLayout(tc: TraceContext)
    ensures Header(tc)[..3] == "00-"
    ensures Header(tc)[3..35] == Encode(tc.traceId) && Header(tc)[35] == '-'
    ensures Header(tc)[36..52] == Encode(tc.spanId) && Header(tc)[52] == '-'
    ensures Header(tc)[53..] == FlagsText(tc.sampled)
    ensures IsLowerHex(Header(tc)[3..35]) && IsLowerHex(Header(tc)[36..52])
  {
    HeaderJoin(tc);
    JoinSlices("00", Encode(tc.traceId), Encode(tc.spanId), FlagsText(tc.sampled));
    EncodeLower(tc.traceId);
    EncodeLower(tc.spanId);
  }

  /** `parse` reads back what `serialize` writes: the same identifiers and
      sampling decision, with the `state` it is given. */
  lemma ParseHeader(split: Splitter, tc: TraceContext, state: string)
    requires SplitsAsWritten(split)
    ensures Parse(split, Header(tc), state) == TraceContext(tc.traceId, tc.spanId, tc.sampled, state)
  {
    HeaderJoin(tc);
    DecodeEncode(tc.traceId);
    DecodeEncode(tc.spanId);
    ParseAccepts(split, Encode(tc.traceId), Encode(tc.spanId), FlagsText(tc.sampled), state);
  }

  /** Conversely, a lower-case header whose flags are "00" or "01" is written
      back exactly as it was read. */
  lemma HeaderParse(split: Splitter, traceId: string, spanId: string, sampled: bool, state: string)
    requires SplitsAsWritten(split)
    requires |traceId| == TraceIdSize && |spanId| == SpanIdSize
    requires IsLowerHex(traceId) && IsLowerHex(spanId)
    ensures Header(Parse(split, Join("00", traceId, spanId, FlagsText(sampled)), state))
         == Join("00", traceId, spanId, FlagsText(sampled))
  {
    EncodeDecodeLower(traceId);
    EncodeDecodeLower(spanId);
    ParseAccepts(split, traceId, spanId, FlagsText(sampled), state);
    var tc := Parse(split, Join("00", traceId, spanId, FlagsText(sampled)), state);
    HeaderJoin(tc);
  }

  /** A span started under a propagated header joins its trace: it keeps the
      parent's trace id and trace state and gets the new span id. */
  lemma GenerateFromHeader(split: Splitter, parent: TraceContext, state: string,
                           sampled: bool, newTraceId: TraceId, newSpanId: SpanId)
    requires SplitsAsWritten(split)
    requires IsValid(parent.traceId)
    ensures var child := Generate(sampled, Parse(split, Header(parent), state), newTraceId, newSpanId);
      child.traceId == parent.traceId && child.spanId == newSpanId &&
      child.sampled == sampled && child.state == state
  {
    ParseHeader(split, parent, state);
  }

  /** `serialize(tc, out)`: writes `Header(tc)` into the first `Size`
      characters of the caller's buffer, advancing a write position. */
  method Serialize(tc: TraceContext, out: array<char>)
    requires out.Length >= Size
    modifies out
    ensures out[..] == Header(tc) + old(out[..])[Size..]
  {
    // `w` is what has been written so far, in front of position `pos`
    ghost var was := out[..];
    ghost var w: string := [];
    var pos := 0;
    WriteChar(out, pos, '0', w, was);
    pos, w := pos + 1, w + "0";
    WriteChar(out, pos, '0', w, was);
    pos, w := pos + 1, w + "0";
    WriteChar(out, pos, '-', w, was);
    pos, w := pos + 1, w + "-";
    assert w == "00-";

    WriteLowerBase16(tc.traceId, out, pos, w, was);
    pos, w := pos + TraceIdSize, w + Encode(tc.traceId);
    WriteChar(out, pos, '-', w, was);
    pos, w := pos + 1, w + "-";

    WriteLowerBase16(tc.spanId, out, pos, w, was);
    pos, w := pos + SpanIdSize, w + Encode(tc.spanId);
    ghost var beforeFlags := w;
    WriteChar(out, pos, '-', w, was);
    pos, w := pos + 1, w + "-";

    WriteChar(out, pos, '0', w, was);
    pos, w := pos + 1, w + "0";
    Assoc(beforeFlags, "-", "0");
    assert w == beforeFlags + "-0";
    var flag := if tc.sampled then '1' else '0';
    WriteChar(out, pos, flag, w, was);
    pos, w := pos + 1, w + [flag];
  }

  /** `*out++ = c`: one character at `pos`, just past the written prefix
      `w`; the rest of the buffer keeps its old contents `was`. */
  method WriteChar(out: array<char>, pos: nat, c: char, ghost w: string, ghost was: string)
    requires pos == |w| && pos < out.Length == |was|
    requires out[..] == w + was[pos..]
    modifies out
    ensures out[..] == (w + [c]) + was[pos + 1..]
  {
    out[pos] := c;
    assert out[..] == (w + was[pos..])[pos := c];
  }

  /** `id.ToLowerBase16({out, 2 * |id|})`: the lower-case hex encoding of
      `id` written from `pos` on, everything else unchanged. */
  method WriteLowerBase16(id: seq<byte>, out: array<char>, pos: nat, ghost w: string, ghost was: string)
    requires pos == |w| && pos + 2 * |id| <= out.Length == |was|
    requires out[..] == w + was[pos..]
    modifies out
    ensures out[..] == (w + Encode(id)) + was[pos + 2 * |id|..]
  {
    ghost var v := w;
    for i := 0 to |id|
      invariant |v| == pos + 2 * i
      invariant v == w + Encode(id[..i])
      invariant out[..] == v + was[|v|..]
    {
      var digits := ByteDigits(id[i]);
      WriteByte(out, pos + 2 * i, digits, v, was);
      HexStep(id, i, w, v, digits);
      v := v + digits;
    }
    assert id[..|id|] == id;
  }

  /** The digits of byte `i` extend the encoding of the bytes before it. */
  lemma HexStep(id: seq<byte>, i: nat, w: string, v: string, digits: string)
    requires i < |id| && digits == ByteDigits(id[i])
    requires v == w + Encode(id[..i])
    ensures v + digits == w + Encode(id[..i + 1])
  {
    EncodePrefix(id, i);
    Assoc(w, Encode(id[..i]), digits);
  }

  /** Two digits written just past the prefix `v` extend it. */
  method WriteByte(out: array<char>, pos: nat, digits: string, ghost v: string, ghost was: string)
    requires |digits| == 2 && pos == |v| && pos + 2 <= out.Length == |was|
    requires out[..] == v + was[|v|..]
    modifies out
    ensures out[..] == (v + digits) + was[|v + digits|..]
    ensures |v + digits| == pos + 2
  {
    out[pos] := digits[0];
    out[pos + 1] := digits[1];
    WrittenDigits(v, was, digits);
  }

  lemma WrittenDigits(w: string, was: string, digits: string)
    requires |digits| == 2 && |w| + 2 <= |was|
    ensures (w + was[|w|..])[|w| := digits[0]][|w| + 1 := digits[1]] == (w + digits) + was[|w| + 2..]
  {
  }

  /** Concatenation regroups. */
  lemma Assoc<T>(a: seq<T>, b: seq<T>, c: seq<T>)
    ensures (a + b) + c == a + (b + c)
  {
  }

  /** The encoding of the first `i + 1` bytes extends that of the first `i`. */
  lemma EncodePrefix(id: seq<byte>, i: nat)
    requires i < |id|
    ensures Encode(id[..i + 1]) == Encode(id[..i]) + ByteDigits(id[i])
  {
    assert id[..i + 1] == id[..i] + [id[i]];
    EncodeSnoc(id[..i], id[i]);
  }

  /** Encoding one more byte appends its two digits. */
  lemma {:induction false} EncodeSnoc(b: seq<byte>, x: byte)
    ensures Encode(b + [x]) == Encode(b) + ByteDigits(x)
  {
    if b != [] {
      assert (b + [x])[1..] == b[1..] + [x];
      EncodeSnoc(b[1..], x);
    } else {
      assert b + [x] == [x];
    }
  }
}
