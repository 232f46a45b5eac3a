/**
 The field collector for OpenAI chat responses: it streams events when the response is known to be
 server-sent events, and otherwise captures the body until the captured prefix shows that it is.
 */
module Collector {
  import opened Bytes
  import opened Json
  import opened SseStream
  import opened ChatFold
  import Text
  import Utf8

  const MAX_FIELD_CLAIMS_CAPTURE: nat := 0x80_0000
  const MAX_STREAM_SNIFF_BYTES: nat := 0x1000

  function Take<T>(s: seq<T>, n: nat): (t: seq<T>)
    ensures t <= s && |t| <= n
  {
    if |s| <= n then s else s[..n]
  }

  // ----- The two tests that look at a prefix of the body -----

  predicate IsEventLine(line: string) {
    DATA <= line || EVENT <= line
  }

  /** `looks_like_sse`. */
  predicate LooksLikeSse(body: seq<byte>) {
    exists line | line in Text.Lines(Utf8.Lossy(Take(body, 512)), '\n', '\r') :: IsEventLine(line)
  }

  predicate Skipped(c: char) {
    Text.RustSpace(c) || c == '\U{FEFF}'
  }

  /** The text starts, after white space and byte-order marks, like server-sent events. */
  predicate StartsLikeSse(text: string) {
    if text != "" && Skipped(text[0]) then StartsLikeSse(text[1..])
    else IsEventLine(text) || ":" <= text
  }

  /** `body_prefix_indicates_sse`. */
  predicate IndicatesSse(body: seq<byte>) {
    StartsLikeSse(Utf8.Lossy(Take(body, MAX_STREAM_SNIFF_BYTES)))
  }

  /** The longest run of white space and byte-order marks is n long, and a field or a comment starts behind it. */
  ghost predicate FieldAt(text: string, n: nat) {
    && n <= |text| && (forall i :: 0 <= i < n ==> Text.RustSpace(text[i]) || text[i] == '\U{FEFF}')
    && (n < |text| ==> !Text.RustSpace(text[n]) && text[n] != '\U{FEFF}')
    && ("data:" <= text[n..] || "event:" <= text[n..] || ":" <= text[n..])
  }

  ghost predicate FieldBehindSpaces(text: string) {
    exists n: nat :: FieldAt(text, n)
  }

  lemma FieldShift(text: string, n: nat)
    requires text != "" && Skipped(text[0])
    ensures FieldAt(text[1..], n) <==> FieldAt(text, n + 1)
    ensures !FieldAt(text, 0)
  {
    hide Text.RustSpace;
    var rest := text[1..];
    if n <= |rest| {
      assert rest[n..] == text[n + 1..];
      assert forall i :: 0 <= i < n ==> rest[i] == text[i + 1];
      assert forall i :: 0 < i < n + 1 ==> text[i] == rest[i - 1];
    }
  }

  lemma FieldHere(text: string)
    requires text == "" || !Skipped(text[0])
    ensures FieldBehindSpaces(text) <==> FieldAt(text, 0)
    ensures FieldAt(text, 0) <==> IsEventLine(text) || ":" <= text
  {
    assert text[0..] == text;
    forall n: nat
      ensures FieldAt(text, n) ==> n == 0
    {
    }
  }

  lemma {:induction false} StartsIff(text: string)
    ensures StartsLikeSse(text) <==> FieldBehindSpaces(text)
  {
    hide FieldAt, Skipped;
    if text != "" && Skipped(text[0]) {
      StartsIff(text[1..]);
      FieldShift(text, 0);
      if n: nat :| FieldAt(text[1..], n) {
        FieldShift(text, n);
      }
      if m: nat :| FieldAt(text, m) {
        assert m != 0;
        FieldShift(text, m - 1);
      }
    } else {
      FieldHere(text);
    }
  }

  /** `body_prefix_indicates_sse`, told without the walk over the text. */
  lemma IndicatesIff(body: seq<byte>)
    ensures IndicatesSse(body) <==> FieldBehindSpaces(Utf8.Lossy(Take(body, MAX_STREAM_SNIFF_BYTES)))
  {
    StartsIff(Utf8.Lossy(Take(body, MAX_STREAM_SNIFF_BYTES)));
  }

  /** Each of the three beginnings counts. */
  lemma EachBeginning(start: string, rest: seq<byte>)
    requires start == "data:" || start == "event:" || start == ":"
    ensures IndicatesSse(Utf8.Encode(start) + rest)
  {
    hide Utf8.Lossy, Utf8.Encode, FieldBehindSpaces;
    var body := Utf8.Encode(start) + rest;
    EncodedStart(start);
    assert Take(body, MAX_STREAM_SNIFF_BYTES) == Utf8.Encode(start) + Take(body, MAX_STREAM_SNIFF_BYTES)[|start|..];
    Utf8.LossyOfEncode(start);
    AsciiPrefixStays(start, Utf8.Encode(start), Take(body, MAX_STREAM_SNIFF_BYTES)[|start|..]);
    assert Utf8.Lossy(Take(body, MAX_STREAM_SNIFF_BYTES))[0] == start[0];
  }

  lemma EncodedStart(start: string)
    requires start == "data:" || start == "event:" || start == ":"
    ensures |Utf8.Encode(start)| == |start| && forall i :: 0 <= i < |start| ==> start[i] as int < 0x80
  {
    Utf8.AsciiLength(start);
  }

  lemma {:induction false} AsciiPrefixStays(t: string, p: seq<byte>, q: seq<byte>)
    requires forall i :: 0 <= i < |t| ==> t[i] as int < 0x80
    requires t <= Utf8.Lossy(p)
    ensures t <= Utf8.Lossy(p + q)
    decreases |t|
  {
    if t != "" {
      var s := Utf8.DecodeStep(p);
      assert Utf8.Lossy(p)[0] == t[0];
      assert p[0] == t[0] as int && s.len == 1;
      assert (p + q)[1..] == p[1..] + q;
      AsciiPrefixStays(t[1..], p[1..], q);
    }
  }

  /** More bytes never take the verdict back, even when the first bytes end inside a character. */
  lemma {:induction false} SniffGrows(p: seq<byte>, q: seq<byte>)
    requires StartsLikeSse(Utf8.Lossy(p))
    ensures StartsLikeSse(Utf8.Lossy(p + q))
    decreases |p|
  {
    hide Utf8.DecodeStep;
    var text := Utf8.Lossy(p);
    var s := Utf8.DecodeStep(p);
    if Skipped(text[0]) {
      Utf8.StepStays(p, q);
      assert (p + q)[s.len..] == p[s.len..] + q;
      SniffGrows(p[s.len..], q);
    } else if DATA <= text {
      AsciiPrefixStays(DATA, p, q);
    } else if EVENT <= text {
      AsciiPrefixStays(EVENT, p, q);
    } else {
      AsciiPrefixStays(":", p, q);
    }
  }

  lemma SniffIsMonotone(p: seq<byte>, b: seq<byte>)
    requires p <= b && IndicatesSse(p)
    ensures IndicatesSse(b)
  {
    var p', b' := Take(p, MAX_STREAM_SNIFF_BYTES), Take(b, MAX_STREAM_SNIFF_BYTES);
    assert b' == p' + b'[|p'|..];
    SniffGrows(p', b'[|p'|..]);
  }

  // ----- The whole-body view -----

  /** `parse_json_body`. */
  function ParseJsonBody(o: Oracle, body: seq<byte>): Value {
    var trimmed := Text.Trim(Utf8.Lossy(body));
    if trimmed == "" then Value.Null
    else o.parseJson(trimmed).GetOr(Obj(map["raw_sha256" := Str(o.sha256Hex(body)), "parse_error" := Str("invalid_json")]))
  }

  function Parsed(o: Oracle, body: seq<byte>): Value {
    if LooksLikeSse(body) then Arr(BodyEvents(o, body)) else ParseJsonBody(o, body)
  }

  /** `field_view` for a chat response. */
  function FieldView(o: Oracle, body: seq<byte>): Value {
    var parsed := Parsed(o, body);
    if parsed.Arr? then View(EventFold(EMPTY, parsed.items))
    else Pick(parsed, {"model", "choices", "usage", "error"})
  }

  /**
   The view of a response that is not read as events, told field by field: of an object the fields model, choices,
   usage and error as they are and no other, and any other value unchanged. Arrays are aggregated.
   */
  lemma ResponseViewIs(o: Oracle, body: seq<byte>)
    requires !LooksLikeSse(body)
    ensures var parsed, view := ParseJsonBody(o, body), FieldView(o, body);
      && (parsed.Obj? ==> view.Obj? && forall k ::
            view.Get(k) == if k == "model" || k == "choices" || k == "usage" || k == "error" then parsed.Get(k) else None)
      && (!parsed.Obj? && !parsed.Arr? ==> view == parsed)
  {
    hide LooksLikeSse, ParseJsonBody, View, EventFold;
    PickIs(ParseJsonBody(o, body), {"model", "choices", "usage", "error"}, FieldView(o, body));
  }

  /** The view of a body read as server-sent events. */
  function StreamView(o: Oracle, body: seq<byte>): Value {
    View(EventFold(EMPTY, BodyEvents(o, body)))
  }

  // ----- What a list of reads leaves behind -----

  /** Still capturing, or streaming with the bytes the parser has seen. */
  datatype Seen = Capturing(body: seq<byte>, truncated: bool) | Streamed(absorbed: seq<byte>)

  /** `capture_field_body`. */
  function Capture(body: seq<byte>, truncated: bool, chunk: seq<byte>): (r: (seq<byte>, bool)) {
    if truncated then (body, true)
    else
      var remaining := if |body| <= MAX_FIELD_CLAIMS_CAPTURE then MAX_FIELD_CLAIMS_CAPTURE - |body| else 0;
      if |chunk| > remaining then (body + chunk[..remaining], true) else (body + chunk, false)
  }

  function SeenStep(s: Seen, chunk: seq<byte>): Seen {
    match s
    case Streamed(absorbed) => Streamed(absorbed + chunk)
    case Capturing(body, truncated) =>
      var (b, t) := Capture(body, truncated, chunk);
      if IndicatesSse(b) then Streamed(b) else Capturing(b, t)
  }

  function SeenFold(s: Seen, chunks: seq<seq<byte>>): Seen {
    if chunks == [] then s else SeenStep(SeenFold(s, chunks[..|chunks| - 1]), chunks[|chunks| - 1])
  }

  /** The number of bytes received when the prefix first indicated server-sent events, if it ever did. */
  function TriggerSize(chunks: seq<seq<byte>>): Option<nat> {
    if chunks == [] then None
    else
      var front := chunks[..|chunks| - 1];
      var earlier := TriggerSize(front);
      if earlier.Some? then earlier
      else if IndicatesSse(Flatten(chunks)) then Some(|Flatten(chunks)|) else None
  }

  lemma FlattenLast<T>(chunks: seq<seq<T>>)
    requires chunks != []
    ensures Flatten(chunks) == Flatten(chunks[..|chunks| - 1]) + chunks[|chunks| - 1]
  {
    assert chunks == chunks[..|chunks| - 1] + [chunks[|chunks| - 1]];
    FlattenSnoc(chunks[..|chunks| - 1], chunks[|chunks| - 1]);
  }

  lemma {:induction false} TriggerIff(chunks: seq<seq<byte>>)
    ensures TriggerSize(chunks).Some? <==> IndicatesSse(Flatten(chunks))
    ensures TriggerSize(chunks).Some? ==> TriggerSize(chunks).value <= |Flatten(chunks)|
  {
    if chunks == [] {
      assert Take(Flatten<byte>([]), MAX_STREAM_SNIFF_BYTES) == [];
    } else {
      FlattenLast(chunks);
      var front := chunks[..|chunks| - 1];
      TriggerIff(front);
      if IndicatesSse(Flatten(front)) {
        SniffIsMonotone(Flatten(front), Flatten(chunks));
      }
    }
  }

  /** Only the first MAX_STREAM_SNIFF_BYTES count, so truncating the capture does not change the verdict. */
  lemma SniffOfCapture(whole: seq<byte>)
    ensures IndicatesSse(Take(whole, MAX_FIELD_CLAIMS_CAPTURE)) <==> IndicatesSse(whole)
  {
    assert Take(Take(whole, MAX_FIELD_CLAIMS_CAPTURE), MAX_STREAM_SNIFF_BYTES) == Take(whole, MAX_STREAM_SNIFF_BYTES);
  }

  lemma CaptureIsTake(whole: seq<byte>, chunk: seq<byte>)
    ensures Capture(Take(whole, MAX_FIELD_CLAIMS_CAPTURE), |whole| > MAX_FIELD_CLAIMS_CAPTURE, chunk)
         == (Take(whole + chunk, MAX_FIELD_CLAIMS_CAPTURE), |whole + chunk| > MAX_FIELD_CLAIMS_CAPTURE)
  {
    var m := MAX_FIELD_CLAIMS_CAPTURE;
    if |whole| > m {
      assert (whole + chunk)[..m] == whole[..m];
    } else if |chunk| > m - |whole| {
      assert (whole + chunk)[..m] == whole + chunk[..m - |whole|];
    }
  }

  /** What is left of a body when bytes [MAX_FIELD_CLAIMS_CAPTURE, cut) are lost. */
  function WithoutGap(whole: seq<byte>, cut: nat): seq<byte>
    requires cut <= |whole|
  {
    if cut <= MAX_FIELD_CLAIMS_CAPTURE then whole else whole[..MAX_FIELD_CLAIMS_CAPTURE] + whole[cut..]
  }

  /** The state after any reads, in terms of the whole body and of the size of the triggering prefix. */
  lemma {:induction false} SeenIs(chunks: seq<seq<byte>>)
    ensures TriggerSize(chunks).Some? ==> TriggerSize(chunks).value <= |Flatten(chunks)|
    ensures var whole := Flatten(chunks);
      SeenFold(Capturing([], false), chunks) ==
      match TriggerSize(chunks)
      case Some(cut) => Streamed(WithoutGap(whole, cut))
      case None => Capturing(Take(whole, MAX_FIELD_CLAIMS_CAPTURE), |whole| > MAX_FIELD_CLAIMS_CAPTURE)
  {
    TriggerIff(chunks);
    if chunks != [] {
      var front, last := chunks[..|chunks| - 1], chunks[|chunks| - 1];
      FlattenLast(chunks);
      SeenIs(front);
      CaptureIsTake(Flatten(front), last);
      SniffOfCapture(Flatten(chunks));
      var cut := TriggerSize(front);
      if cut.Some? && cut.value > MAX_FIELD_CLAIMS_CAPTURE {
        var m := MAX_FIELD_CLAIMS_CAPTURE;
        assert (Flatten(front) + last)[..m] == Flatten(front)[..m];
        assert (Flatten(front) + last)[cut.value..] == Flatten(front)[cut.value..] + last;
        assert Flatten(front)[..m] + Flatten(front)[cut.value..] + last
            == Flatten(front)[..m] + (Flatten(front)[cut.value..] + last);
      }
    }
  }

  /**
   The mode switch: the collector ends streaming exactly when the prefix of the whole body indicates
   server-sent events, and the parser then saw the whole body exactly when the reads through the
   triggering one fit the capture limit.
   */
  lemma ModeSwitch(chunks: seq<seq<byte>>)
    ensures var s := SeenFold(Capturing([], false), chunks);
      && (s.Streamed? <==> IndicatesSse(Flatten(chunks)))
      && (s.Streamed? ==>
            TriggerSize(chunks).Some? && (s.absorbed == Flatten(chunks) <==> TriggerSize(chunks).value <= MAX_FIELD_CLAIMS_CAPTURE))
  {
    TriggerIff(chunks);
    SeenIs(chunks);
    var cut := TriggerSize(chunks);
    if cut.Some? && cut.value > MAX_FIELD_CLAIMS_CAPTURE {
      assert |WithoutGap(Flatten(chunks), cut.value)| < |Flatten(chunks)|;
    }
  }

  /**
   It does happen: one read that brings an indicating body longer than the capture limit switches the collector,
   but the parser sees only what was captured of it.
   */
  lemma OneLongRead(whole: seq<byte>)
    requires IndicatesSse(whole) && |whole| > MAX_FIELD_CLAIMS_CAPTURE
    ensures TriggerSize([whole]) == Some(|whole|)
    ensures SeenFold(Capturing([], false), [whole]) == Streamed(whole[..MAX_FIELD_CLAIMS_CAPTURE])
    ensures whole[..MAX_FIELD_CLAIMS_CAPTURE] != whole
  {
    hide IndicatesSse;
    var front: seq<seq<byte>> := [];
    assert [whole][..0] == front;
    assert Flatten([whole]) == whole by {
      assert [whole][1..] == [] && whole + [] == whole;
    }
    NothingTriggers();
    SeenIs([whole]);
    assert whole[|whole|..] == [];
    assert whole[..MAX_FIELD_CLAIMS_CAPTURE] + [] == whole[..MAX_FIELD_CLAIMS_CAPTURE];
  }

  lemma NothingTriggers()
    ensures TriggerSize([]).None?
  {
  }

  /** And there are such bodies. */
  lemma LongBodiesExist() returns (whole: seq<byte>)
    ensures IndicatesSse(whole) && |whole| > MAX_FIELD_CLAIMS_CAPTURE
  {
    var n := MAX_FIELD_CLAIMS_CAPTURE;
    whole := [0x3a] + seq(n, _ => 0x20);
    assert |whole| == n + 1;
    ColonIndicates(seq(n, _ => 0x20));
  }

  lemma ColonIndicates(rest: seq<byte>)
    ensures IndicatesSse([0x3a] + rest)
  {
    hide Utf8.Lossy;
    var b := [0x3a] + rest;
    var prefix := Take(b, MAX_STREAM_SNIFF_BYTES);
    assert prefix == [0x3a] + prefix[1..];
    Utf8.LossyAscii(0x3a, prefix[1..]);
    assert ":" <= [':'] + Utf8.Lossy(prefix[1..]);
  }

  // ----- The collector object -----

  datatype ResponseBody =
    | Streaming(parser: SseEventParser, state: OpenAiChatStreamState)
    | Sniffing(captured: seq<byte>, truncated: bool, idle: OpenAiChatStreamState)

  /** `FieldResponseCollector` of protocol openai.chat_completions. */
  class FieldResponseCollector {
    const oracle: Oracle
    var body: ResponseBody
    ghost var events: seq<Value>
    ghost var absorbed: seq<byte>

    ghost function Owned(): set<object>
      reads this
    {
      if body.Streaming? then {body.parser, body.state} else {body.idle}
    }

    ghost predicate Valid()
      reads this, Owned()
    {
      if body.Streaming? then
        && body.parser.Valid() && body.parser.oracle == oracle
        && body.parser.Model(events) == Absorb(oracle, START, absorbed)
        && body.state.Model() == EventFold(EMPTY, events)
      else
        body.idle.Model() == EMPTY
    }

    ghost function Model(): Seen
      reads this
    {
      if body.Streaming? then Streamed(absorbed) else Capturing(body.captured, body.truncated)
    }

    /** `streaming` stands for an event-stream content type or a request that asked for streaming. */
    constructor (o: Oracle, streaming: bool)
      ensures Valid() && fresh(Owned()) && oracle == o
      ensures Model() == if streaming then Streamed([]) else Capturing([], false)
    {
      oracle := o;
      events, absorbed := [], [];
      var state := new OpenAiChatStreamState();
      if streaming {
        var parser := new SseEventParser(o);
        body := Streaming(parser, state);
      } else {
        body := Sniffing([], false, state);
      }
    }

    method Push(chunk: seq<byte>)
      requires Valid()
      modifies this, Owned()
      ensures Valid() && fresh(Owned() - old(Owned()))
      ensures Model() == SeenStep(old(Model()), chunk)
    {
      match body {
        case Streaming(parser, state) =>
          Feed(chunk);
        case Sniffing(captured, truncated, idle) =>
          var (b, t) := Capture(captured, truncated, chunk);
          if IndicatesSse(b) {
            var parser := new SseEventParser(oracle);
            body := Streaming(parser, idle);
            events, absorbed := [], [];
            Feed(b);
            assert [] + b == b;
          } else {
            body := Sniffing(b, t, idle);
          }
      }
    }

    /** The parser takes a chunk, and the state every event it emits. */
    method Feed(chunk: seq<byte>)
      requires Valid() && body.Streaming?
      modifies this`events, this`absorbed, body.parser, body.state
      ensures Valid() && absorbed == old(absorbed) + chunk
    {
      AbsorbConcat(oracle, START, absorbed, chunk);
      AbsorbEvents(oracle, body.parser.Model([]), events, chunk);
      assert After(events, body.parser.Model([]).fold) == body.parser.Model(events).fold;
      var emitted := body.parser.Push(chunk);
      absorbed := absorbed + chunk;
      ghost var before := events;
      EventFoldConcat(EMPTY, before, emitted);
      ApplyAll(emitted);
      events := before + emitted;
    }

    method ApplyAll(emitted: seq<Value>)
      requires body.Streaming?
      modifies body.state
      ensures body.state.Model() == EventFold(old(body.state.Model()), emitted)
    {
      for i := 0 to |emitted|
        invariant body.state.Model() == EventFold(old(body.state.Model()), emitted[..i])
      {
        assert emitted[..i + 1] == emitted[..i] + [emitted[i]];
        EventFoldSnoc(old(body.state.Model()), emitted[..i], emitted[i]);
        body.state.Apply(emitted[i]);
      }
      assert emitted[..|emitted|] == emitted;
    }

    /** The response view, or nothing when the captured body was truncated. */
    method Finish() returns (view: Option<Value>)
      requires Valid()
      modifies this, Owned()
      ensures match old(Model())
        case Streamed(seen) => view == Some(StreamView(oracle, seen))
        case Capturing(captured, truncated) => view == if truncated then None else Some(FieldView(oracle, captured))
    {
      match body {
        case Streaming(parser, state) =>
          FinishedEvents(oracle, parser.Model([]), events);
          assert After(events, parser.Model([]).fold) == parser.Model(events).fold;
          var emitted := parser.Finish();
          EventFoldConcat(EMPTY, events, emitted);
          ApplyAll(emitted);
          StreamedEventsAreBodyEvents(oracle, absorbed);
          var v := state.Finish();
          view := Some(v);
        case Sniffing(captured, truncated, idle) =>
          view := if truncated then None else Some(FieldView(oracle, captured));
      }
    }
  }

  /**
   What a collector returns, and whether it ended streaming: `streaming` from the start, or sniffing first. The
   view may miss the bytes between the capture limit and the end of the triggering read, and there is none of a
   long body that never indicates server-sent events.
   */
  function Collected(o: Oracle, streaming: bool, chunks: seq<seq<byte>>): Option<(Value, bool)> {
    var whole := Flatten(chunks);
    TriggerIff(chunks);
    if streaming then Some((StreamView(o, whole), true))
    else match TriggerSize(chunks)
      case Some(cut) => Some((StreamView(o, WithoutGap(whole, cut)), true))
      case None => if |whole| > MAX_FIELD_CLAIMS_CAPTURE then None else Some((FieldView(o, whole), false))
  }

  /** A collector that streams from the start gives the whole-body view, for every way of cutting the body. */
  method CollectStreaming(o: Oracle, chunks: seq<seq<byte>>) returns (view: Option<Value>)
    ensures view == Some(StreamView(o, Flatten(chunks)))
    ensures LooksLikeSse(Flatten(chunks)) ==> view == Some(FieldView(o, Flatten(chunks)))
    ensures view == Some(Collected(o, true, chunks).value.0)
  {
    var collector := new FieldResponseCollector(o, true);
    for i := 0 to |chunks|
      invariant collector.Valid() && collector.oracle == o && fresh(collector.Owned())
      invariant collector.Model() == Streamed(Flatten(chunks[..i]))
    {
      FlattenTake(chunks, i);
      collector.Push(chunks[i]);
    }
    assert chunks[..|chunks|] == chunks;
    view := collector.Finish();
  }

  /**
   A collector that starts by sniffing: the streaming view when the body indicates server-sent events - of
   the whole body if the reads through the triggering one fit the capture limit, otherwise of the body
   without the bytes between that limit and the end of the triggering read - the whole-body view of a short
   body that does not, and no view of a long one.
   */
  method CollectSniffing(o: Oracle, chunks: seq<seq<byte>>) returns (view: Option<Value>)
    ensures var whole := Flatten(chunks);
      if IndicatesSse(whole) then
        TriggerSize(chunks).Some? && TriggerSize(chunks).value <= |whole|
        && view == Some(StreamView(o, WithoutGap(whole, TriggerSize(chunks).value)))
      else view == if |whole| > MAX_FIELD_CLAIMS_CAPTURE then None else Some(FieldView(o, whole))
    ensures var c := Collected(o, false, chunks); view == if c.None? then None else Some(c.value.0)
  {
    var collector := new FieldResponseCollector(o, false);
    for i := 0 to |chunks|
      invariant collector.Valid() && collector.oracle == o && fresh(collector.Owned())
      invariant collector.Model() == SeenFold(Capturing([], false), chunks[..i])
    {
      assert chunks[..i + 1][..i] == chunks[..i];
      collector.Push(chunks[i]);
    }
    assert chunks[..|chunks|] == chunks;
    SeenIs(chunks);
    ModeSwitch(chunks);
    view := collector.Finish();
  }
}
