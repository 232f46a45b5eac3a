/**
 How the verifier reads a received body (TypeScript), and when that agrees with the enclave's reading: the two
 libraries differ in what they trim, in what starts a line, and in the CR of an unterminated last line.
 */
module VerifierReading {
  import opened Bytes
  import opened ChatFold
  import opened ChatFoldTs
  import opened Collector
  import opened Json
  import opened SseStream
  import opened Text
  import Utf8

  // ----- Events -----

  /** `text.split('\n')`, each piece without one CR at its end. */
  function TsLines(s: string): (ls: seq<string>)
    ensures ls != []
    decreases |s|
  {
    var p := IndexOf(s, ['\n'], 0);
    if p == -1 then [StripCr(s, '\r')] else [StripCr(s[..p], '\r')] + TsLines(s[p + 1..])
  }

  function TsFlushEvents(o: Oracle, dataLines: seq<string>): (events: seq<Value>) {
    var data := Join(dataLines, "\n");
    if dataLines == [] || JsTrim(data) == "" || JsTrim(data) == "[DONE]" then []
    else [o.parseJson(data).GetOr(InvalidSse(o, data))]
  }

  function TsFlushed(o: Oracle, f: Fold): Fold {
    Fold([], f.events + TsFlushEvents(o, f.dataLines))
  }

  function TsLineStep(o: Oracle, f: Fold, line: string): Fold {
    if line == "" then TsFlushed(o, f)
    else if DATA <= line then f.(dataLines := f.dataLines + [JsTrimStart(line[|DATA|..])])
    else f
  }

  function TsFoldLines(o: Oracle, f: Fold, lines: seq<string>): Fold
    decreases |lines|
  {
    if lines == [] then f else TsFoldLines(o, TsLineStep(o, f, lines[0]), lines[1..])
  }

  function TsBodyEvents(o: Oracle, body: seq<byte>): seq<Value> {
    TsFlushed(o, TsFoldLines(o, Fold([], []), TsLines(Utf8.Lossy(body)))).events
  }

  /** `parseSseData`. */
  method ParseSseDataTs(o: Oracle, body: seq<byte>) returns (out: seq<Value>)
    ensures out == TsBodyEvents(o, body)
  {
    var lines := TsLines(Utf8.Lossy(body));
    var dataLines: seq<string> := [];
    out := [];
    for i := 0 to |lines|
      invariant TsFoldLines(o, Fold(dataLines, out), lines[i..]) == TsFoldLines(o, Fold([], []), lines)
    {
      var line := lines[i];
      assert lines[i..][0] == line && lines[i..][1..] == lines[i + 1..];
      if line == "" {
        out := out + TsFlushEvents(o, dataLines);
        dataLines := [];
        continue;
      }
      if DATA <= line {
        dataLines := dataLines + [JsTrimStart(line[|DATA|..])];
      }
    }
    out := out + TsFlushEvents(o, dataLines);
  }

  // ----- Which bodies are read as events -----

  /** Where `^` matches in a regular expression with the flag m. */
  predicate LineStart(text: string, i: nat)
    requires i <= |text|
  {
    i == 0 || text[i - 1] == '\n' || text[i - 1] == '\r' || text[i - 1] as int == 0x2028 || text[i - 1] as int == 0x2029
  }

  /** `looksLikeSse`. */
  predicate TsLooksLikeSse(body: seq<byte>) {
    var text := Utf8.Lossy(Take(body, 512));
    exists i :: 0 <= i < |text| && LineStart(text, i) && IsEventLine(text[i..])
  }

  // ----- The view -----

  function TsParseJsonBody(o: Oracle, body: seq<byte>): Value {
    var trimmed := JsTrim(Utf8.Lossy(body));
    if trimmed == "" then Value.Null
    else o.parseJson(trimmed).GetOr(Obj(map["raw_sha256" := Str(o.sha256Hex(body)), "parse_error" := Str("invalid_json")]))
  }

  function TsParsed(o: Oracle, body: seq<byte>): Value {
    if TsLooksLikeSse(body) then Arr(TsBodyEvents(o, body)) else TsParseJsonBody(o, body)
  }

  /** `extractFieldView` for a chat response. */
  function TsFieldView(o: Oracle, body: seq<byte>): Value {
    var parsed := TsParsed(o, body);
    if parsed.Arr? then View(TsEventFold(EMPTY, parsed.items))
    else Pick(parsed, {"model", "choices", "usage", "error"})
  }

  /** `field_view` and `extractFieldView` for a chat request. */
  function RequestView(o: Oracle, body: seq<byte>): Value {
    Pick(Parsed(o, body), {"model", "messages"})
  }

  function TsRequestView(o: Oracle, body: seq<byte>): Value {
    Pick(TsParsed(o, body), {"model", "messages"})
  }

  // ----- When the readings agree -----

  /** The last line is not ended by a bare CR. */
  predicate NoOpenCr(s: string) {
    s == "" || s[|s| - 1] != '\r'
  }

  /** The empty line that only the verifier sees, behind a text that is empty or ends with LF. */
  function Closing(s: string): seq<string> {
    if s == "" || s[|s| - 1] == '\n' then [""] else []
  }

  lemma {:induction false} LinesAgree(s: string)
    requires NoOpenCr(s)
    ensures TsLines(s) == Lines(s, '\n', '\r') + Closing(s)
    decreases |s|
  {
    hide IndexOf, Lines, TsLines, Closing, StripCr;
    NotFound(s, '\n');
    var p := IndexOf(s, ['\n'], 0);
    LinesUnfold(s);
    if p != -1 {
      SplitAtFirst(s, '\n');
      var first, rest := StripCr(s[..p], '\r'), s[p + 1..];
      ClosingOfRest(s, p);
      LinesAgree(rest);
      assert [first] + (Lines(rest, '\n', '\r') + Closing(rest)) == ([first] + Lines(rest, '\n', '\r')) + Closing(rest);
    }
  }

  lemma LinesUnfold(s: string)
    requires NoOpenCr(s)
    ensures IndexOf(s, ['\n'], 0) == -1 ==> TsLines(s) == Lines(s, '\n', '\r') + Closing(s)
    ensures IndexOf(s, ['\n'], 0) != -1 ==>
      var p := IndexOf(s, ['\n'], 0);
      && TsLines(s) == [StripCr(s[..p], '\r')] + TsLines(s[p + 1..])
      && (s != "" ==> Lines(s, '\n', '\r') == [StripCr(s[..p], '\r')] + Lines(s[p + 1..], '\n', '\r'))
  {
    hide IndexOf;
    NotFound(s, '\n');
    if IndexOf(s, ['\n'], 0) == -1 && s != "" {
      assert s[|s| - 1] in s;
    }
  }

  lemma ClosingOfRest(s: string, p: nat)
    requires p < |s| && s[p] == '\n' && NoOpenCr(s)
    ensures Closing(s) == Closing(s[p + 1..]) && NoOpenCr(s[p + 1..])
  {
    var rest := s[p + 1..];
    if rest != "" {
      assert rest[|rest| - 1] == s[|s| - 1];
    }
  }

  /** A bare CR at the very end belongs to the line for the enclave and not for the verifier. */
  lemma OpenCrLines(s: string)
    requires '\n' !in s
    ensures Lines(s + "\r", '\n', '\r') == [s + "\r"] && TsLines(s + "\r") == [s]
  {
    hide IndexOf;
    NotFound(s + "\r", '\n');
  }

  /** What is skipped instead of parsed, once trimmed. */
  predicate NotParsed(trimmed: string) {
    trimmed == "" || trimmed == "[DONE]"
  }

  /** Collected data that both sides skip or both parse. */
  predicate FlushAlike(dataLines: seq<string>) {
    var data := Join(dataLines, "\n");
    dataLines == [] || (NotParsed(JsTrim(data)) <==> NotParsed(Trim(data)))
  }

  /** Every data line starts alike for both trimming functions, and what is collected is skipped by both or by none. */
  predicate LinesAlike(dataLines: seq<string>, lines: seq<string>)
    decreases |lines|
  {
    if lines == [] then FlushAlike(dataLines)
    else if lines[0] == "" then FlushAlike(dataLines) && LinesAlike([], lines[1..])
    else if DATA <= lines[0] then
      var rest := lines[0][|DATA|..];
      JsTrimStart(rest) == TrimStart(rest) && LinesAlike(dataLines + [TrimStart(rest)], lines[1..])
    else LinesAlike(dataLines, lines[1..])
  }

  lemma FlushAgrees(o: Oracle, dataLines: seq<string>)
    requires FlushAlike(dataLines)
    ensures TsFlushEvents(o, dataLines) == FlushEvents(o, dataLines)
  {
    hide Join, JsTrim, Trim;
  }

  lemma {:induction false} FoldAgrees(o: Oracle, f: Fold, lines: seq<string>)
    requires LinesAlike(f.dataLines, lines)
    ensures TsFoldLines(o, f, lines) == FoldLines(o, f, lines)
    ensures FlushAlike(FoldLines(o, f, lines).dataLines)
    decreases |lines|
  {
    hide FlushEvents, TsFlushEvents, TrimStart, JsTrimStart, FlushAlike;
    if lines != [] {
      if lines[0] == "" {
        FlushAgrees(o, f.dataLines);
      }
      FoldAgrees(o, LineStep(o, f, lines[0]), lines[1..]);
    }
  }

  lemma {:induction false} TsFoldLinesConcat(o: Oracle, f: Fold, a: seq<string>, b: seq<string>)
    ensures TsFoldLines(o, f, a + b) == TsFoldLines(o, TsFoldLines(o, f, a), b)
    decreases |a|
  {
    if a == [] {
      assert a + b == b;
    } else {
      assert (a + b)[1..] == a[1..] + b;
      TsFoldLinesConcat(o, TsLineStep(o, f, a[0]), a[1..], b);
    }
  }

  /** Both readers find the same events in a text whose data lines they trim alike. */
  lemma EventsAgree(o: Oracle, body: seq<byte>)
    requires LinesAlike([], Lines(Utf8.Lossy(body), '\n', '\r')) && NoOpenCr(Utf8.Lossy(body))
    ensures TsBodyEvents(o, body) == BodyEvents(o, body)
  {
    hide Utf8.Lossy, Lines, TsLines, FoldLines, TsFoldLines, FlushEvents, TsFlushEvents, LinesAlike, FlushAlike,
         NoOpenCr;
    var text := Utf8.Lossy(body);
    var lines := Lines(text, '\n', '\r');
    LinesAgree(text);
    FoldAgrees(o, Fold([], []), lines);
    TsFoldLinesConcat(o, Fold([], []), lines, Closing(text));
    var f := FoldLines(o, Fold([], []), lines);
    FlushAgrees(o, f.dataLines);
    ExtraLine(o, f, Closing(text));
  }

  /** A further empty line at the end only flushes earlier. */
  lemma ExtraLine(o: Oracle, f: Fold, more: seq<string>)
    requires more == [] || more == [""]
    ensures TsFlushed(o, TsFoldLines(o, f, more)) == TsFlushed(o, f)
  {
    if more == [""] {
      assert more[1..] == [];
      assert TsFoldLines(o, f, more) == TsFlushed(o, f);
      assert TsFlushed(o, f).events + [] == TsFlushed(o, f).events;
    }
  }

  /** Lines start behind LF only: no bare CR, no U+2028 and no U+2029. */
  predicate PlainLineStarts(text: string) {
    forall i :: 0 <= i < |text| ==>
      text[i] as int != 0x2028 && text[i] as int != 0x2029 && (text[i] == '\r' && i + 1 < |text| ==> text[i + 1] == '\n')
  }

  predicate LineStartsWith(ls: seq<string>, p: string) {
    exists l :: l in ls && p <= l
  }

  predicate StandsAtLf(s: string, p: string) {
    exists i :: 0 <= i < |s| && (i == 0 || s[i - 1] == '\n') && p <= s[i..]
  }

  /** A line with a prefix that holds no line ending stands in the text behind LF or in front, and the reverse. */
  lemma {:induction false} LineWithPrefix(s: string, p: string)
    requires p != "" && '\n' !in p && '\r' !in p
    ensures LineStartsWith(Lines(s, '\n', '\r'), p) <==> StandsAtLf(s, p)
    decreases |s|
  {
    hide IndexOf, LineStartsWith, StandsAtLf;
    if s == "" {
      NoStarts(p);
      return;
    }
    NotFound(s, '\n');
    var q := IndexOf(s, ['\n'], 0);
    if q == -1 {
      OneLine(s, p);
    } else {
      SplitAtFirst(s, '\n');
      LineWithPrefix(s[q + 1..], p);
      FirstLinePrefix(s, q, p);
      StartsSplit(s, q, p);
      FirstOrLater(StripCr(s[..q], '\r'), Lines(s[q + 1..], '\n', '\r'), p);
    }
  }

  lemma NoStarts(p: string)
    ensures !LineStartsWith([], p) && !StandsAtLf("", p)
  {
  }

  lemma OneLine(s: string, p: string)
    requires s != "" && '\n' !in s
    ensures LineStartsWith([s], p) <==> p <= s
    ensures StandsAtLf(s, p) <==> p <= s
  {
    assert s in [s] && s[0..] == s;
  }

  lemma FirstOrLater(first: string, rest: seq<string>, p: string)
    ensures LineStartsWith([first] + rest, p) <==> p <= first || LineStartsWith(rest, p)
  {
    var all := [first] + rest;
    assert first in all && (forall l :: l in rest ==> l in all) && forall l :: l in all ==> l == first || l in rest;
  }

  lemma FirstLinePrefix(s: string, q: nat, p: string)
    requires q < |s| && s[q] == '\n' && '\n' !in s[..q]
    requires p != "" && '\n' !in p && '\r' !in p
    ensures p <= StripCr(s[..q], '\r') <==> p <= s
  {
    if p <= s {
      assert forall i :: 0 <= i < |p| ==> p[i] == s[i];
      assert |p| <= q;
      if q > 0 && s[q - 1] == '\r' {
        assert |p| <= q - 1;
      }
    }
  }

  lemma StartsSplit(s: string, q: nat, p: string)
    requires q < |s| && s[q] == '\n' && '\n' !in s[..q] && p != ""
    ensures StandsAtLf(s, p) <==> p <= s || StandsAtLf(s[q + 1..], p)
  {
    hide StandsAtLf;
    if StandsAtLf(s, p) && !(p <= s) {
      StartsBehind(s, q, p);
    }
    StartsKept(s, q, p);
  }

  lemma StartsBehind(s: string, q: nat, p: string)
    requires q < |s| && s[q] == '\n' && '\n' !in s[..q]
    requires StandsAtLf(s, p) && !(p <= s)
    ensures StandsAtLf(s[q + 1..], p)
  {
    var i :| 0 <= i < |s| && (i == 0 || s[i - 1] == '\n') && p <= s[i..];
    assert s[0..] == s;
    assert s[i - 1] !in s[..q];
    assert i - 1 >= q;
    assert s[i..] == s[q + 1..][i - (q + 1)..];
  }

  lemma StartsKept(s: string, q: nat, p: string)
    requires q < |s| && s[q] == '\n' && p != ""
    ensures p <= s || StandsAtLf(s[q + 1..], p) ==> StandsAtLf(s, p)
  {
    if p <= s {
      assert s[0..] == s;
    } else if StandsAtLf(s[q + 1..], p) {
      var i :| 0 <= i < |s| - (q + 1) && (i == 0 || s[q + 1..][i - 1] == '\n') && p <= s[q + 1..][i..];
      var j := q + 1 + i;
      assert s[j..] == s[q + 1..][i..];
      assert s[j - 1] == '\n';
    }
  }

  /** The same for a text behind any line terminator of a regular expression. */
  predicate StandsAtStart(s: string, p: string) {
    exists i :: 0 <= i < |s| && p <= s[i..]
      && (i == 0 || s[i - 1] == '\n' || s[i - 1] == '\r' || s[i - 1] == '\U{2028}' || s[i - 1] == '\U{2029}')
  }

  predicate EventAtLf(text: string) {
    StandsAtLf(text, "data:") || StandsAtLf(text, "event:")
  }

  predicate EventAnywhere(text: string) {
    StandsAtStart(text, "data:") || StandsAtStart(text, "event:")
  }

  /** The enclave looks at lines, which start behind LF. */
  lemma LooksIsAtLf(text: string)
    ensures (exists line | line in Lines(text, '\n', '\r') :: IsEventLine(line)) <==> EventAtLf(text)
  {
    hide Lines, StandsAtLf;
    LineWithPrefix(text, DATA);
    LineWithPrefix(text, EVENT);
    if line :| line in Lines(text, '\n', '\r') && IsEventLine(line) {
      assert DATA <= line || EVENT <= line;
    }
    if LineStartsWith(Lines(text, '\n', '\r'), DATA) {
      var l :| l in Lines(text, '\n', '\r') && DATA <= l;
      assert IsEventLine(l);
    }
    if LineStartsWith(Lines(text, '\n', '\r'), EVENT) {
      var l :| l in Lines(text, '\n', '\r') && EVENT <= l;
      assert IsEventLine(l);
    }
  }

  /** The verifier's regular expression finds what stands at the start of any of its lines. */
  lemma LooksIsAnywhere(text: string)
    ensures (exists i :: 0 <= i < |text| && LineStart(text, i) && IsEventLine(text[i..])) <==> EventAnywhere(text)
  {
    StartsAnywhere(text, DATA);
    StartsAnywhere(text, EVENT);
    hide StandsAtStart, LineStart;
    if i :| 0 <= i < |text| && LineStart(text, i) && IsEventLine(text[i..]) {
      assert DATA <= text[i..] || EVENT <= text[i..];
    }
    if i :| 0 <= i < |text| && LineStart(text, i) && DATA <= text[i..] {
      assert IsEventLine(text[i..]);
    }
    if i :| 0 <= i < |text| && LineStart(text, i) && EVENT <= text[i..] {
      assert IsEventLine(text[i..]);
    }
  }

  lemma StartsAnywhere(text: string, p: string)
    ensures StandsAtStart(text, p) <==> exists i :: 0 <= i < |text| && LineStart(text, i) && p <= text[i..]
  {
  }

  /** Both tests, told by what stands where in the first 512 octets, decoded. */
  lemma LooksAre(body: seq<byte>)
    ensures LooksLikeSse(body) <==> EventAtLf(Utf8.Lossy(Take(body, 512)))
    ensures TsLooksLikeSse(body) <==> EventAnywhere(Utf8.Lossy(Take(body, 512)))
  {
    hide Lines, Utf8.Lossy, IsEventLine, LineStart, EventAtLf, EventAnywhere;
    LooksIsAtLf(Utf8.Lossy(Take(body, 512)));
    LooksIsAnywhere(Utf8.Lossy(Take(body, 512)));
  }

  lemma StartOfPlain(s: string, p: string)
    requires p != "" && p[0] != '\n'
    ensures StandsAtLf(s, p) ==> StandsAtStart(s, p)
    ensures PlainLineStarts(s) ==> (StandsAtLf(s, p) <==> StandsAtStart(s, p))
  {
    if StandsAtLf(s, p) {
      var i :| 0 <= i < |s| && (i == 0 || s[i - 1] == '\n') && p <= s[i..];
      assert p <= s[i..];
    }
    if PlainLineStarts(s) && StandsAtStart(s, p) {
      var i :| 0 <= i < |s| && p <= s[i..]
        && (i == 0 || s[i - 1] == '\n' || s[i - 1] == '\r' || s[i - 1] == '\U{2028}' || s[i - 1] == '\U{2029}');
      assert s[i..][0] == s[i] != '\n';
    }
  }

  lemma AtLfIsAnywhere(text: string)
    ensures EventAtLf(text) ==> EventAnywhere(text)
    ensures PlainLineStarts(text) ==> (EventAtLf(text) <==> EventAnywhere(text))
  {
    hide StandsAtLf, StandsAtStart, PlainLineStarts;
    StartOfPlain(text, "data:");
    StartOfPlain(text, "event:");
  }

  /** A field that starts behind a bare CR, U+2028 or U+2029 does so beside one that starts behind LF or in front. */
  predicate StartsAlike(text: string) {
    EventAnywhere(text) ==> EventAtLf(text)
  }

  /** Whatever the enclave takes for events, the verifier does, and the reverse exactly where starts are alike. */
  lemma LooksAgreeIff(body: seq<byte>)
    ensures LooksLikeSse(body) ==> TsLooksLikeSse(body)
    ensures (LooksLikeSse(body) <==> TsLooksLikeSse(body)) <==> StartsAlike(Utf8.Lossy(Take(body, 512)))
    ensures PlainLineStarts(Utf8.Lossy(Take(body, 512))) ==> StartsAlike(Utf8.Lossy(Take(body, 512)))
  {
    hide LooksLikeSse, TsLooksLikeSse, Utf8.Lossy, PlainLineStarts, EventAtLf, EventAnywhere;
    LooksAre(body);
    AtLfIsAnywhere(Utf8.Lossy(Take(body, 512)));
  }

  /**
   A bare CR or a Unicode line separator in front of the first field makes the verifier read events where the
   enclave reads JSON.
   */
  lemma BareCrDiffers(c: char, body: seq<byte>)
    requires c == '\r' || c == '\U{2028}' || c == '\U{2029}'
    requires body == Utf8.Encode("x" + [c] + "data:")
    ensures TsLooksLikeSse(body) && !LooksLikeSse(body)
  {
    hide Utf8.Encode, Utf8.Lossy, LooksLikeSse, TsLooksLikeSse;
    var text := "x" + [c] + "data:";
    Utf8.LossyOfEncode(text);
    ShortPrefix(text);
    LooksAre(body);
    assert text[2..] == "data:" && text[1] == c;
    assert forall i :: 0 <= i < |text| ==> text[i] != '\n';
    assert text[0..][0] == 'x';
  }

  lemma ShortPrefix(text: string)
    requires |text| <= 128
    ensures Take(Utf8.Encode(text), 512) == Utf8.Encode(text)
  {
    EncodedAtMost(text);
  }

  lemma {:induction false} EncodedAtMost(text: string)
    ensures |Utf8.Encode(text)| <= 4 * |text|
    decreases |text|
  {
    if text != "" {
      EncodedAtMost(text[1..]);
    }
  }

  /** A body both sides read alike: as events with the same data lines, or as JSON trimmed alike. */
  predicate SameReading(body: seq<byte>) {
    var text := Utf8.Lossy(body);
    && StartsAlike(Utf8.Lossy(Take(body, 512)))
    && if LooksLikeSse(body) then LinesAlike([], Lines(text, '\n', '\r')) && NoOpenCr(text) else JsTrim(text) == Trim(text)
  }

  lemma ParsedAgrees(o: Oracle, body: seq<byte>)
    requires SameReading(body)
    ensures TsParsed(o, body) == Parsed(o, body)
  {
    hide Utf8.Lossy, LooksLikeSse, TsLooksLikeSse, BodyEvents, TsBodyEvents, LinesAlike, Lines, NoOpenCr, StartsAlike,
         Trim, JsTrim;
    LooksAgreeIff(body);
    if LooksLikeSse(body) {
      EventsAgree(o, body);
    }
  }

  /** The request view on both sides, told field by field: model and messages as they are and no other field. */
  lemma RequestViewsAre(o: Oracle, body: seq<byte>)
    ensures var parsed, view := Parsed(o, body), RequestView(o, body);
      && (parsed.Obj? ==> view.Obj? && forall k :: view.Get(k) == if k == "model" || k == "messages" then parsed.Get(k) else None)
      && (!parsed.Obj? && !parsed.Arr? ==> view == parsed)
      && IsPicked(view, parsed, {"model", "messages"})
    ensures var parsed, view := TsParsed(o, body), TsRequestView(o, body);
      && (parsed.Obj? ==> view.Obj? && forall k :: view.Get(k) == if k == "model" || k == "messages" then parsed.Get(k) else None)
      && (!parsed.Obj? && !parsed.Arr? ==> view == parsed)
      && IsPicked(view, parsed, {"model", "messages"})
  {
    hide Parsed, TsParsed, Pick;
    PickIs(Parsed(o, body), {"model", "messages"}, RequestView(o, body));
    PickIs(TsParsed(o, body), {"model", "messages"}, TsRequestView(o, body));
  }

  /** And the verifier's view of a response that it does not read as events. */
  lemma TsResponseViewIs(o: Oracle, body: seq<byte>)
    requires !TsLooksLikeSse(body)
    ensures var parsed, view := TsParseJsonBody(o, body), TsFieldView(o, body);
      && (parsed.Obj? ==> view.Obj? && forall k ::
            view.Get(k) == if k == "model" || k == "choices" || k == "usage" || k == "error" then parsed.Get(k) else None)
      && (!parsed.Obj? && !parsed.Arr? ==> view == parsed)
  {
    hide TsLooksLikeSse, TsParseJsonBody, View, TsEventFold, Pick;
    PickIs(TsParseJsonBody(o, body), {"model", "choices", "usage", "error"}, TsFieldView(o, body));
  }

  /** The events a body is aggregated from, if it is. */
  function Events(o: Oracle, body: seq<byte>): seq<Value> {
    if Parsed(o, body).Arr? then Parsed(o, body).items else []
  }

  /** Nothing is left open in the tool calls at the end of the events of a body. */
  predicate Gapless(o: Oracle, body: seq<byte>) {
    NoGaps(GapsAfter(EMPTY, map[], Events(o, body)))
  }

  /**
   On such a body, with events both aggregators treat alike, both sides see the same chat response exactly when
   its tool calls have no gap at the end.
   */
  lemma FieldViewsAgreeIff(o: Oracle, body: seq<byte>)
    requires SameReading(body) && CommonStream(EMPTY, Events(o, body))
    ensures TsFieldView(o, body) == FieldView(o, body) <==> Gapless(o, body)
  {
    hide SameReading, Parsed, TsParsed, CommonStream, View, EventFold, TsEventFold, GapsAfter, NoGaps;
    ParsedAgrees(o, body);
    ViewsAgreeIff(Events(o, body));
    if !Parsed(o, body).Arr? {
      NoEventsNoGaps();
    }
  }

  lemma NoEventsNoGaps()
    ensures NoGaps(GapsAfter(EMPTY, map[], []))
  {
  }

  /** Requests are picked from, so that they agree on every such body. */
  lemma RequestViewsAgree(o: Oracle, body: seq<byte>)
    requires SameReading(body)
    ensures TsRequestView(o, body) == RequestView(o, body)
  {
    hide SameReading, Parsed, TsParsed;
    ParsedAgrees(o, body);
  }

  // ----- Events that start late -----

  function Spaces(n: nat): seq<byte> {
    seq(n, _ => 0x20)
  }

  function SpaceText(n: nat): string {
    seq(n, _ => ' ')
  }

  /** A comment of more than 512 octets, then one data line. */
  function LateBody(n: nat, data: string): seq<byte> {
    [0x3a] + Spaces(n) + Utf8.Encode("\n" + (DATA + data))
  }

  function Comment(n: nat): string {
    [':'] + SpaceText(n)
  }

  lemma {:induction false} LossySpaces(n: nat, rest: seq<byte>)
    ensures Utf8.Lossy(Spaces(n) + rest) == SpaceText(n) + Utf8.Lossy(rest)
    decreases n
  {
    hide Utf8.Lossy;
    if n == 0 {
      assert Spaces(0) + rest == rest && SpaceText(0) + Utf8.Lossy(rest) == Utf8.Lossy(rest);
    } else {
      LossySpaces(n - 1, rest);
      Utf8.LossyAscii(0x20, Spaces(n - 1) + rest);
      assert Spaces(n) + rest == [0x20] + (Spaces(n - 1) + rest);
      assert SpaceText(n) == [' '] + SpaceText(n - 1);
    }
  }

  lemma LossyComment(n: nat, rest: seq<byte>)
    ensures Utf8.Lossy([0x3a] + Spaces(n) + rest) == Comment(n) + Utf8.Lossy(rest)
  {
    hide Utf8.Lossy;
    assert [0x3a] + Spaces(n) + rest == [0x3a] + (Spaces(n) + rest);
    Utf8.LossyAscii(0x3a, Spaces(n) + rest);
    LossySpaces(n, rest);
  }

  lemma LateText(n: nat, data: string)
    ensures Utf8.Lossy(LateBody(n, data)) == Comment(n) + ("\n" + (DATA + data))
  {
    hide Utf8.Lossy, Utf8.Encode;
    LossyComment(n, Utf8.Encode("\n" + (DATA + data)));
    Utf8.LossyOfEncode("\n" + (DATA + data));
  }

  /** The sniffing collector takes it for events, the look at the first 512 octets does not. */
  lemma LateIsSniffed(n: nat, data: string)
    requires n >= 511
    ensures IndicatesSse(LateBody(n, data)) && !TsLooksLikeSse(LateBody(n, data))
  {
    hide Utf8.Lossy, Utf8.Encode, IndicatesSse;
    var body := LateBody(n, data);
    assert body == [0x3a] + body[1..];
    ColonIndicates(body[1..]);
    assert Take(body, 512) == [0x3a] + Spaces(511) + [];
    LossyComment(511, []);
    assert Utf8.Lossy([]) == "" by {
      Utf8.LossyOfEncode("");
    }
    var text := Comment(511);
    assert Utf8.Lossy(Take(body, 512)) == text;
    assert forall i :: 0 <= i < |text| ==> text[i..][0] == text[i] && text[i] != 'd' && text[i] != 'e';
  }

  lemma TwoLines(a: string, b: string)
    requires '\n' !in a && '\n' !in b && b != "" && NoOpenCr(a)
    ensures Lines(a + ("\n" + b), '\n', '\r') == [a, b]
  {
    hide IndexOf;
    var s := a + ("\n" + b);
    NotFound(b, '\n');
    assert s == a + ['\n'] + b;
    FirstAt(a, '\n', b);
    assert s[..|a|] == a && s[|a| + 1..] == b;
    assert Lines(b, '\n', '\r') == [b];
  }

  lemma FoldPair(o: Oracle, f: Fold, a: string, b: string)
    ensures FoldLines(o, f, [a, b]) == LineStep(o, LineStep(o, f, a), b)
  {
    hide LineStep;
    var last: seq<string> := [b];
    assert [a, b][1..] == last && last[1..] == [];
    var g := LineStep(o, f, a);
    assert FoldLines(o, f, [a, b]) == FoldLines(o, g, last);
    assert FoldLines(o, g, last) == FoldLines(o, LineStep(o, g, b), last[1..]);
  }

  lemma CommentStep(o: Oracle, f: Fold, line: string)
    requires line != "" && line[0] == ':'
    ensures LineStep(o, f, line) == f
  {
    assert DATA[0] == 'd';
  }

  lemma DataStep(o: Oracle, f: Fold, line: string, data: string)
    requires line != "" && DATA <= line && line[|DATA|..] == data && TrimStart(data) == data
    ensures LineStep(o, f, line) == f.(dataLines := f.dataLines + [data])
  {
    hide TrimStart, Flushed, DATA;
  }

  lemma Behind<T>(a: seq<T>, b: seq<T>)
    ensures a <= a + b && (a + b)[|a|..] == b
  {
  }

  lemma FlushOne(o: Oracle, data: string, event: Value)
    requires Trim(data) != "" && Trim(data) != "[DONE]" && o.parseJson(data) == Some(event)
    ensures FlushEvents(o, [data]) == [event]
  {
    hide Trim;
  }

  lemma DataHasNoLf()
    ensures '\n' !in DATA && DATA != ""
  {
  }

  lemma LateEvents(o: Oracle, n: nat, data: string, event: Value)
    requires '\n' !in data && TrimStart(data) == data && Trim(data) != "" && Trim(data) != "[DONE]"
    requires o.parseJson(data) == Some(event)
    ensures BodyEvents(o, LateBody(n, data)) == [event]
  {
    hide Utf8.Lossy, LateBody, Lines, FoldLines, LineStep, FlushEvents, Trim, TrimStart, Comment, DATA;
    var f := Fold([], []);
    DataHasNoLf();
    var first, second := Comment(n), DATA + data;
    LateText(n, data);
    Behind(DATA, data);
    CommentLine(n);
    TwoLines(first, second);
    FoldPair(o, f, first, second);
    CommentStep(o, f, first);
    DataStep(o, f, second, data);
    FlushOne(o, data, event);
    assert f.dataLines + [data] == [data] && f.events + [event] == [event];
  }

  lemma CommentLine(n: nat)
    ensures Comment(n) != "" && Comment(n)[0] == ':' && '\n' !in Comment(n) && NoOpenCr(Comment(n))
  {
  }

  lemma {:induction false} JsTrimEndKeeps(s: string)
    requires s != "" && !JsSpace(s[0])
    ensures JsTrimEnd(s) != ""
    decreases |s|
  {
    if |s| > 1 {
      JsTrimEndKeeps(s[..|s| - 1]);
    }
  }

  lemma OneDelta(content: string)
    ensures View(EventFold(EMPTY, [Delta(content)])).Get("choices").Some?
  {
    hide ChoiceStep, TsChoiceStep, ChoiceFold, TsChoiceFold, RawChoices, OutStep, InOrder;
    var raw := Obj(map["delta" := Obj(map["content" := Str(content)])]);
    DeltaChoices(content);
    MissingIndexSteps(map[], raw, 0);
    assert [Delta(content)][1..] == [];
    assert EventFold(EMPTY, [Delta(content)]).choices == ChoiceFold(map[], [raw]);
    assert 0 in ChoiceFold(map[], [raw]).Keys;
  }

  /** Of a body that is neither events nor JSON the verifier has an empty view. */
  lemma NoView(o: Oracle, body: seq<byte>)
    requires !TsLooksLikeSse(body) && JsTrim(Utf8.Lossy(body)) != "" && o.parseJson(JsTrim(Utf8.Lossy(body))) == None
    ensures TsFieldView(o, body) == Obj(map[])
  {
    hide Utf8.Lossy, JsTrim, TsLooksLikeSse;
    assert "raw_sha256"[0] == 'r' && "parse_error"[0] == 'p';
  }

  /**
   Events behind a long comment: the sniffing collector's view has the choices, and the verifier, which reads the
   body as JSON, has an empty view.
   */
  lemma LateEventsDiffer(o: Oracle, n: nat, data: string, content: string)
    requires n >= 511 && '\n' !in data && TrimStart(data) == data && Trim(data) != "" && Trim(data) != "[DONE]"
    requires o.parseJson(data) == Some(Delta(content))
    requires o.parseJson(JsTrim(Utf8.Lossy(LateBody(n, data)))) == None
    ensures IndicatesSse(LateBody(n, data)) && StreamView(o, LateBody(n, data)).Get("choices").Some?
    ensures TsFieldView(o, LateBody(n, data)) == Obj(map[])
  {
    hide Utf8.Lossy, LateBody, Trim, TrimStart, BodyEvents, TsLooksLikeSse, IndicatesSse, JsTrimEnd, EventFold, View,
         TsFieldView, DATA;
    var body := LateBody(n, data);
    LateIsSniffed(n, data);
    LateEvents(o, n, data, Delta(content));
    OneDelta(content);
    LateText(n, data);
    assert !JsSpace(Utf8.Lossy(body)[0]);
    JsTrimEndKeeps(Utf8.Lossy(body));
    NoView(o, body);
  }

  // ----- A simple sufficient condition -----

  /** No character that only one of the two libraries trims. */
  predicate SameSpaces(s: string) {
    forall i :: 0 <= i < |s| ==> s[i] as int != 0x85 && s[i] as int != 0xFEFF
  }

  lemma {:induction false} TrimStartAgrees(s: string)
    requires SameSpaces(s)
    ensures JsTrimStart(s) == TrimStart(s)
    decreases |s|
  {
    if s != "" {
      TrimStartAgrees(s[1..]);
    }
  }

  lemma {:induction false} TrimEndAgrees(s: string)
    requires SameSpaces(s)
    ensures JsTrimEnd(s) == TrimEnd(s)
    decreases |s|
  {
    if s != "" {
      TrimEndAgrees(s[..|s| - 1]);
    }
  }

  lemma TrimAgrees(s: string)
    requires SameSpaces(s)
    ensures JsTrim(s) == Trim(s)
  {
    TrimStartAgrees(s);
    TrimEndAgrees(TrimStart(s));
  }

  predicate SameSpacesAll(ls: seq<string>) {
    forall i :: 0 <= i < |ls| ==> SameSpaces(ls[i])
  }

  lemma {:induction false} JoinSpaces(ls: seq<string>)
    requires SameSpacesAll(ls)
    ensures SameSpaces(Join(ls, "\n"))
    decreases |ls|
  {
    if |ls| > 1 {
      JoinSpaces(ls[1..]);
    }
  }

  lemma TrimStartSpaces(s: string)
    requires SameSpaces(s)
    ensures SameSpaces(TrimStart(s))
  {
    var t := TrimStart(s);
    assert t == s[|s| - |t|..];
  }

  lemma {:induction false} LinesSpaces(s: string)
    requires SameSpaces(s)
    ensures SameSpacesAll(Lines(s, '\n', '\r'))
    decreases |s|
  {
    hide IndexOf;
    NotFound(s, '\n');
    var p := IndexOf(s, ['\n'], 0);
    if p != -1 {
      SplitAtFirst(s, '\n');
      LinesSpaces(s[p + 1..]);
      assert StripCr(s[..p], '\r') <= s[..p];
    }
  }

  lemma FlushSpaces(dataLines: seq<string>)
    requires SameSpacesAll(dataLines)
    ensures FlushAlike(dataLines)
  {
    hide Join, SameSpaces, Trim, JsTrim;
    JoinSpaces(dataLines);
    TrimAgrees(Join(dataLines, "\n"));
  }

  lemma {:induction false} SpacesAlike(dataLines: seq<string>, lines: seq<string>)
    requires SameSpacesAll(dataLines) && SameSpacesAll(lines)
    ensures LinesAlike(dataLines, lines)
    decreases |lines|
  {
    hide FlushAlike, TrimStart, JsTrimStart, SameSpaces;
    FlushSpaces(dataLines);
    if lines != [] {
      var next := dataLines;
      if lines[0] == "" {
        next := [];
      } else if DATA <= lines[0] {
        var rest := lines[0][|DATA|..];
        RestSpaces(lines[0], |DATA|);
        TrimStartAgrees(rest);
        TrimStartSpaces(rest);
        next := dataLines + [TrimStart(rest)];
      }
      SpacesAlike(next, lines[1..]);
    }
  }

  lemma RestSpaces(s: string, n: nat)
    requires SameSpaces(s) && n <= |s|
    ensures SameSpaces(s[n..])
  {
  }

  /** Without those characters, bare CR, U+2028 and U+2029 where they matter, a body is read alike. */
  lemma PlainReading(body: seq<byte>)
    requires SameSpaces(Utf8.Lossy(body)) && NoOpenCr(Utf8.Lossy(body)) && PlainLineStarts(Utf8.Lossy(Take(body, 512)))
    ensures SameReading(body)
  {
    hide Utf8.Lossy, Lines, LinesAlike, LooksLikeSse, StartsAlike, PlainLineStarts, NoOpenCr, SameSpaces, Trim, JsTrim;
    LooksAgreeIff(body);
    LinesSpaces(Utf8.Lossy(body));
    SpacesAlike([], Lines(Utf8.Lossy(body), '\n', '\r'));
    TrimAgrees(Utf8.Lossy(body));
  }
}
