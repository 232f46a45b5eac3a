/**
 Event streams as a server writes them, and that both readers find in them exactly what was written: which lines
 carry data, how they are joined, when an event ends and what becomes of data that is not JSON.
 */
module SseRoundTrip {
  import opened Bytes
  import opened Json
  import opened SseStream
  import opened Text
  import Utf8

  /** A line that carries data, with blanks behind the colon, or any other line: a comment, an id, a name. */
  datatype Line = Datum(blanks: string, text: string) | Aside(text: string)

  /** No line ending inside, and none at the end that a reader would take for one. */
  predicate OneLine(s: string) {
    '\n' !in s && (s == "" || s[|s| - 1] != '\r')
  }

  predicate Valid(l: Line) {
    match l
    case Datum(blanks, text) =>
      && OneLine(blanks + text) && (forall i :: 0 <= i < |blanks| ==> blanks[i] == ' ' || blanks[i] == '\t')
      && (text == "" || !RustSpace(text[0]))
    case Aside(text) => text != "" && OneLine(text) && !("data:" <= text)
  }

  function LineText(l: Line): string {
    match l
    case Datum(blanks, text) => "data:" + blanks + text
    case Aside(text) => text
  }

  /** An event: its lines and an empty one, all ended by LF or by CRLF. */
  datatype Event = Event(lines: seq<Line>, crlf: bool)

  function Eol(crlf: bool): string {
    if crlf then "\r\n" else "\n"
  }

  function LinesText(lines: seq<Line>, crlf: bool): string {
    if lines == [] then Eol(crlf) else LineText(lines[0]) + Eol(crlf) + LinesText(lines[1..], crlf)
  }

  function StreamText(events: seq<Event>): string {
    if events == [] then "" else LinesText(events[0].lines, events[0].crlf) + StreamText(events[1..])
  }

  predicate ValidLines(lines: seq<Line>) {
    forall i :: 0 <= i < |lines| ==> Valid(lines[i])
  }

  predicate ValidStream(events: seq<Event>) {
    forall i :: 0 <= i < |events| ==> ValidLines(events[i].lines)
  }

  // ----- What was written -----

  /** The data of an event: the texts of its data lines, a line feed between every two. */
  function DataOf(lines: seq<Line>): (d: Option<string>)
  {
    if lines == [] then None
    else
      var rest := DataOf(lines[1..]);
      if lines[0].Aside? then rest
      else if rest.None? then Some(lines[0].text)
      else Some(lines[0].text + "\n" + rest.value)
  }

  /** Nothing but white space, or the end marker with white space around it. */
  ghost predicate NoData(s: string) {
    AllBlank(s) || exists a: string, b: string :: AllBlank(a) && AllBlank(b) && s == a + "[DONE]" + b
  }

  /** What the events carry: a JSON value each, or its digest where the data is not JSON. */
  ghost function Carried(o: Oracle, events: seq<Event>): seq<Value> {
    if events == [] then []
    else
      var d := DataOf(events[0].lines);
      var rest := Carried(o, events[1..]);
      if d.None? || NoData(d.value) then rest
      else if o.parseJson(d.value).Some? then [o.parseJson(d.value).value] + rest
      else [Obj(map["raw_data_sha256" := Str(o.sha256Hex(Utf8.Encode(d.value))), "parse_error" := Str("invalid_sse_json")])] + rest
  }

  lemma NoDataIff(s: string)
    ensures NoData(s) <==> Trim(s) == "" || Trim(s) == "[DONE]"
  {
    hide Trim;
    var a, b := TrimParts(s);
    if AllBlank(s) {
      assert s + "" + "" == s;
      TrimOf(s, "", "");
    }
    forall c: string, d: string | AllBlank(c) && AllBlank(d) && s == c + "[DONE]" + d
      ensures Trim(s) == "[DONE]"
    {
      TrimOf(c, "[DONE]", d);
    }
    if Trim(s) == "" {
      assert s == a + b;
    }
  }

  // ----- Reading it back -----

  lemma {:induction false} FoldLinesConcat(o: Oracle, f: Fold, a: seq<string>, b: seq<string>)
    ensures FoldLines(o, f, a + b) == FoldLines(o, FoldLines(o, f, a), b)
    decreases |a|
  {
    if a == [] {
      assert a + b == b;
    } else {
      assert (a + b)[1..] == a[1..] + b;
      FoldLinesConcat(o, LineStep(o, f, a[0]), a[1..], b);
    }
  }

  /** A written line, in front of more text, is the first line that is read. */
  lemma FirstLine(t: string, crlf: bool, rest: string)
    requires OneLine(t)
    ensures Lines(t + Eol(crlf) + rest, '\n', '\r') == [t] + Lines(rest, '\n', '\r')
  {
    hide Lines;
    if crlf {
      var a := t + "\r";
      assert t + "\r\n" + rest == a + ['\n'] + rest;
      LinesSplit(a, '\n', rest, '\r');
      assert a[..|a| - 1] == t;
    } else {
      LinesSplit(t, '\n', rest, '\r');
    }
  }

  lemma PrefixIsOne(p: string, s: string)
    requires OneLine(p) && OneLine(s)
    ensures OneLine(p + s)
  {
    assert s != "" ==> (p + s)[|p + s| - 1] == s[|s| - 1];
    assert s == "" ==> p + s == p;
  }

  lemma LineIsOne(l: Line)
    requires Valid(l)
    ensures OneLine(LineText(l)) && LineText(l) != ""
  {
    if l.Datum? {
      DataIsOne();
      hide OneLine, RustSpace;
      PrefixIsOne("data:", l.blanks + l.text);
      assert LineText(l) == "data:" + (l.blanks + l.text);
    }
  }

  lemma DataIsOne()
    ensures OneLine("data:")
  {
  }

  /** What one line adds to the data collected so far. */
  lemma LineAdds(o: Oracle, f: Fold, l: Line)
    requires Valid(l)
    ensures LineStep(o, f, LineText(l)) == if l.Aside? then f else f.(dataLines := f.dataLines + [l.text])
  {
    hide RustSpace;
    if l.Datum? {
      var s := LineText(l);
      assert s == "data:" + (l.blanks + l.text);
      assert DATA <= s && s[|DATA|..] == l.blanks + l.text;
      BlanksAreSpaces(l.blanks);
      TrimStartOf(l.blanks, l.text);
    }
  }

  lemma BlanksAreSpaces(s: string)
    requires forall i :: 0 <= i < |s| ==> s[i] == ' ' || s[i] == '\t'
    ensures AllBlank(s)
  {
  }

  /** The texts of the data lines. */
  function Texts(lines: seq<Line>): seq<string> {
    if lines == [] then []
    else if lines[0].Aside? then Texts(lines[1..])
    else [lines[0].text] + Texts(lines[1..])
  }

  lemma {:induction false} JoinedTexts(lines: seq<Line>)
    ensures DataOf(lines).None? <==> Texts(lines) == []
    ensures DataOf(lines).Some? ==> DataOf(lines).value == Join(Texts(lines), "\n")
    decreases |lines|
  {
    if lines != [] {
      JoinedTexts(lines[1..]);
      if lines[0].Datum? && Texts(lines[1..]) != [] {
        assert Texts(lines)[1..] == Texts(lines[1..]);
      }
    }
  }

  /** The lines of one event, then whatever follows. */
  lemma {:induction false} EventLines(o: Oracle, f: Fold, lines: seq<Line>, crlf: bool, rest: string)
    requires ValidLines(lines)
    ensures FoldLines(o, f, Lines(LinesText(lines, crlf) + rest, '\n', '\r'))
         == FoldLines(o, Flushed(o, f.(dataLines := f.dataLines + Texts(lines))), Lines(rest, '\n', '\r'))
    decreases |lines|
  {
    hide Lines, LineStep, FoldLines, Flushed, LineText, Valid, OneLine, Eol;
    NoneIsOne();
    if lines == [] {
      assert Eol(crlf) + rest == "" + Eol(crlf) + rest;
      FirstLine("", crlf, rest);
      EmptyFlushes(o, f);
      assert f.dataLines + [] == f.dataLines;
      StepFold(o, f, "", Lines(rest, '\n', '\r'));
    } else {
      var l, more := lines[0], LinesText(lines[1..], crlf) + rest;
      assert LinesText(lines, crlf) + rest == LineText(l) + Eol(crlf) + more;
      LineIsOne(l);
      FirstLine(LineText(l), crlf, more);
      StepFold(o, f, LineText(l), Lines(more, '\n', '\r'));
      LineAdds(o, f, l);
      var g := if l.Aside? then f else f.(dataLines := f.dataLines + [l.text]);
      EventLines(o, g, lines[1..], crlf, rest);
      assert l.Datum? ==> f.dataLines + [l.text] + Texts(lines[1..]) == f.dataLines + Texts(lines);
    }
  }

  lemma NoneIsOne()
    ensures OneLine("")
  {
  }

  lemma StepFold(o: Oracle, f: Fold, line: string, rest: seq<string>)
    ensures FoldLines(o, f, [line] + rest) == FoldLines(o, LineStep(o, f, line), rest)
  {
    hide LineStep;
    assert ([line] + rest)[1..] == rest;
  }

  lemma EmptyFlushes(o: Oracle, f: Fold)
    ensures LineStep(o, f, "") == Flushed(o, f)
  {
  }

  /** What one event emits. */
  lemma EventEmits(o: Oracle, lines: seq<Line>)
    ensures FlushEvents(o, Texts(lines)) == Carried(o, [Event(lines, false)])
    ensures forall crlf, rest :: Carried(o, [Event(lines, crlf)] + rest) == FlushEvents(o, Texts(lines)) + Carried(o, rest)
  {
    hide Trim, NoData, Join;
    JoinedTexts(lines);
    if DataOf(lines).Some? {
      NoDataIff(DataOf(lines).value);
    }
    forall crlf, rest
      ensures Carried(o, [Event(lines, crlf)] + rest) == FlushEvents(o, Texts(lines)) + Carried(o, rest)
    {
      assert ([Event(lines, crlf)] + rest)[1..] == rest;
    }
    assert [Event(lines, false)] + [] == [Event(lines, false)];
    assert FlushEvents(o, Texts(lines)) + Carried(o, []) == FlushEvents(o, Texts(lines));
  }

  lemma {:induction false} StreamFold(o: Oracle, before: seq<Value>, events: seq<Event>)
    requires ValidStream(events)
    ensures FoldLines(o, Fold([], before), Lines(StreamText(events), '\n', '\r')) == Fold([], before + Carried(o, events))
    decreases |events|
  {
    hide Lines, FlushEvents, Carried, ValidLines, LinesText;
    if events == [] {
      NothingCarried(o, before);
    } else {
      var e, rest := events[0], events[1..];
      EventLines(o, Fold([], before), e.lines, e.crlf, StreamText(rest));
      EventEmits(o, e.lines);
      assert events == [Event(e.lines, e.crlf)] + rest;
      assert [] + Texts(e.lines) == Texts(e.lines);
      var after := before + FlushEvents(o, Texts(e.lines));
      StreamFold(o, after, rest);
      assert after + Carried(o, rest) == before + (FlushEvents(o, Texts(e.lines)) + Carried(o, rest));
    }
  }

  lemma NothingCarried(o: Oracle, before: seq<Value>)
    ensures FoldLines(o, Fold([], before), Lines("", '\n', '\r')) == Fold([], before + Carried(o, []))
  {
    assert before + [] == before;
  }

  /** Reading a written stream gives exactly what its events carry, in order. */
  lemma StreamReadsBack(o: Oracle, events: seq<Event>)
    requires ValidStream(events)
    ensures BodyEvents(o, Utf8.Encode(StreamText(events))) == Carried(o, events)
  {
    hide Utf8.Lossy, Utf8.Encode, Lines, FoldLines, StreamText, Carried, ValidStream;
    Utf8.LossyOfEncode(StreamText(events));
    StreamFold(o, [], events);
    assert [] + Carried(o, events) == Carried(o, events);
    var f := Fold([], Carried(o, events));
    assert f.events + FlushEvents(o, []) == f.events;
  }
}
