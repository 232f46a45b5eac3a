/**
 Server-sent events: the incremental parser fed by arbitrary reads, the whole-body parser, and the
 proof that every way of cutting a body gives the same events.
 */
module SseStream {
  import opened Bytes
  import opened Json
  import opened Text
  import Utf8

  const DATA := "data:"
  const EVENT := "event:"

  // ----- What one line and one flush do -----

  function InvalidSse(o: Oracle, data: string): Value {
    Obj(map["raw_data_sha256" := Str(o.sha256Hex(Utf8.Encode(data))), "parse_error" := Str("invalid_sse_json")])
  }

  /** The event carried by the collected data lines, if any. */
  function FlushEvents(o: Oracle, dataLines: seq<string>): (events: seq<Value>)
    ensures |events| <= 1
  {
    var data := Join(dataLines, "\n");
    if dataLines == [] || Trim(data) == "" || Trim(data) == "[DONE]" then []
    else [o.parseJson(data).GetOr(InvalidSse(o, data))]
  }

  /** Data lines collected so far and events emitted so far. */
  datatype Fold = Fold(dataLines: seq<string>, events: seq<Value>)

  function Flushed(o: Oracle, f: Fold): Fold {
    Fold([], f.events + FlushEvents(o, f.dataLines))
  }

  function LineStep(o: Oracle, f: Fold, line: string): Fold {
    if line == "" then Flushed(o, f)
    else if DATA <= line then f.(dataLines := f.dataLines + [TrimStart(line[|DATA|..])])
    else f
  }

  function FoldLines(o: Oracle, f: Fold, lines: seq<string>): Fold
    decreases |lines|
  {
    if lines == [] then f else FoldLines(o, LineStep(o, f, lines[0]), lines[1..])
  }

  /** The events of a whole body: split the decoded text into lines, fold, flush once more. */
  function BodyEvents(o: Oracle, body: seq<byte>): seq<Value> {
    Flushed(o, FoldLines(o, Fold([], []), Lines(Utf8.Lossy(body), '\n', '\r'))).events
  }

  /** `parse_sse_data`. */
  method ParseSseData(o: Oracle, body: seq<byte>) returns (items: seq<Value>)
    ensures items == BodyEvents(o, body)
  {
    var lines := Lines(Utf8.Lossy(body), '\n', '\r');
    var dataLines: seq<string> := [];
    items := [];
    for i := 0 to |lines|
      invariant FoldLines(o, Fold(dataLines, items), lines[i..]) == FoldLines(o, Fold([], []), lines)
    {
      var line := lines[i];
      if line == "" {
        items := items + FlushEvents(o, dataLines);
        dataLines := [];
        continue;
      }
      if DATA <= line {
        dataLines := dataLines + [TrimStart(line[|DATA|..])];
      }
    }
    items := items + FlushEvents(o, dataLines);
  }

  // ----- The parser as a machine that takes one octet at a time -----

  datatype Machine = Machine(pending: seq<byte>, fold: Fold)

  const START := Machine([], Fold([], []))

  function Octet(o: Oracle, m: Machine, b: byte): Machine {
    if b == LF
    then Machine([], LineStep(o, m.fold, Utf8.Lossy(StripCr(m.pending, CR))))
    else m.(pending := m.pending + [b])
  }

  function Absorb(o: Oracle, m: Machine, bs: seq<byte>): Machine
    decreases |bs|
  {
    if bs == [] then m else Absorb(o, Octet(o, m, bs[0]), bs[1..])
  }

  /** End of input: an unterminated last line still counts, and collected data lines are flushed. */
  function Finished(o: Oracle, m: Machine): Fold {
    Flushed(o, if m.pending == [] then m.fold else LineStep(o, m.fold, Utf8.Lossy(m.pending)))
  }

  /** The machine only sees the concatenation of what it is fed. */
  lemma {:induction false} AbsorbConcat(o: Oracle, m: Machine, a: seq<byte>, b: seq<byte>)
    ensures Absorb(o, m, a + b) == Absorb(o, Absorb(o, m, a), b)
    decreases |a|
  {
    if a == [] {
      assert a + b == b;
    } else {
      assert (a + b)[1..] == a[1..] + b;
      AbsorbConcat(o, Octet(o, m, a[0]), a[1..], b);
    }
  }

  lemma {:induction false} AbsorbPlain(o: Oracle, m: Machine, a: seq<byte>)
    requires LF !in a
    ensures Absorb(o, m, a) == m.(pending := m.pending + a)
    decreases |a|
  {
    if a != [] {
      AbsorbPlain(o, Octet(o, m, a[0]), a[1..]);
      assert m.pending + [a[0]] + a[1..] == m.pending + a;
    } else {
      assert m.pending + a == m.pending;
    }
  }

  /** One complete line from an empty buffer. */
  lemma AbsorbLine(o: Oracle, f: Fold, line: seq<byte>, rest: seq<byte>)
    requires LF !in line
    ensures Absorb(o, Machine([], f), line + [LF] + rest)
         == Absorb(o, Machine([], LineStep(o, f, Utf8.Lossy(StripCr(line, CR)))), rest)
  {
    var m := Machine([], f);
    AbsorbPlain(o, m, line);
    assert [] + line == line;
    AbsorbConcat(o, m, line, [LF] + rest);
    assert line + [LF] + rest == line + ([LF] + rest);
    assert ([LF] + rest)[1..] == rest;
  }

  lemma MapLossyCons(l: seq<byte>, ls: seq<seq<byte>>)
    ensures MapLossy([l] + ls) == [Utf8.Lossy(l)] + MapLossy(ls)
  {
    hide Utf8.Lossy;
  }

  lemma FoldLinesCons(o: Oracle, f: Fold, t: string, ls: seq<string>)
    ensures FoldLines(o, f, [t] + ls) == FoldLines(o, LineStep(o, f, t), ls)
  {
    assert ([t] + ls)[1..] == ls;
  }

  /** The machine run over a whole body agrees with folding the body's decoded lines. */
  lemma {:induction false} AbsorbIsFoldLines(o: Oracle, f: Fold, body: seq<byte>)
    ensures Finished(o, Absorb(o, Machine([], f), body))
         == Flushed(o, FoldLines(o, f, MapLossy(Lines(body, LF, CR))))
    decreases |body|, 1
  {
    NotFound(body, LF);
    var p := IndexOf(body, [LF], 0);
    if p == -1 {
      AbsorbPlain(o, Machine([], f), body);
      assert [] + body == body;
      if body != [] {
        var t := Utf8.Lossy(body);
        assert MapLossy(Lines(body, LF, CR)) == [t] + [];
        FoldLinesCons(o, f, t, []);
      }
    } else {
      SplitAtFirst(body, LF);
      AbsorbIsFoldLinesStep(o, f, body[..p], body[p + 1..]);
    }
  }

  lemma {:induction false} AbsorbIsFoldLinesStep(o: Oracle, f: Fold, l: seq<byte>, r: seq<byte>)
    requires LF !in l
    ensures Finished(o, Absorb(o, Machine([], f), l + [LF] + r))
         == Flushed(o, FoldLines(o, f, MapLossy(Lines(l + [LF] + r, LF, CR))))
    decreases |r| + 1, 0
  {
    hide Absorb, LineStep, FoldLines, Lines, Finished, Flushed, MapLossy, Utf8.Lossy, IndexOf;
    AbsorbLine(o, f, l, r);
    LinesSplit(l, LF, r, CR);
    var t := Utf8.Lossy(StripCr(l, CR));
    MapLossyCons(StripCr(l, CR), Lines(r, LF, CR));
    FoldLinesCons(o, f, t, MapLossy(Lines(r, LF, CR)));
    AbsorbIsFoldLines(o, LineStep(o, f, t), r);
  }

  /** The incremental parser and the whole-body parser emit the same events on every body. */
  lemma StreamedEventsAreBodyEvents(o: Oracle, body: seq<byte>)
    ensures Finished(o, Absorb(o, START, body)).events == BodyEvents(o, body)
  {
    AbsorbIsFoldLines(o, Fold([], []), body);
    LinesOfLossy(body);
  }

  // ----- The parser object -----

  /** The octets waiting in the buffer can be read again in front of new ones. */
  lemma PendingFirst(o: Oracle, m: Machine, chunk: seq<byte>)
    requires LF !in m.pending
    ensures Absorb(o, Machine([], m.fold), m.pending + chunk) == Absorb(o, m, chunk)
  {
    AbsorbPlain(o, Machine([], m.fold), m.pending);
    assert [] + m.pending == m.pending;
    AbsorbConcat(o, Machine([], m.fold), m.pending, chunk);
  }

  function After(before: seq<Value>, f: Fold): Fold {
    f.(events := before + f.events)
  }

  lemma LineStepEvents(o: Oracle, f: Fold, before: seq<Value>, line: string)
    ensures LineStep(o, After(before, f), line) == After(before, LineStep(o, f, line))
  {
    assert before + f.events + FlushEvents(o, f.dataLines) == before + (f.events + FlushEvents(o, f.dataLines));
  }

  /** Taking the first complete line off the buffer. */
  lemma PendingLine(o: Oracle, dataLines: seq<string>, events: seq<Value>, pending: seq<byte>)
    requires LF in pending
    ensures 0 <= IndexOf(pending, [LF], 0) < |pending|
    ensures (var pos := IndexOf(pending, [LF], 0);
             var line := Utf8.Lossy(StripCr(pending[..pos], CR));
             Absorb(o, Machine([], Fold(dataLines, events)), pending)
             == Absorb(o, Machine([], After(events, LineStep(o, Fold(dataLines, []), line))), pending[pos + 1..]))
  {
    NotFound(pending, LF);
    SplitAtFirst(pending, LF);
    var pos := IndexOf(pending, [LF], 0);
    AbsorbLine(o, Fold(dataLines, events), pending[..pos], pending[pos + 1..]);
    assert After(events, Fold(dataLines, [])) == Fold(dataLines, events);
    LineStepEvents(o, Fold(dataLines, []), events, Utf8.Lossy(StripCr(pending[..pos], CR)));
  }

  /** The bytes of a list of reads, in order. */
  function Flatten<T>(chunks: seq<seq<T>>): seq<T> {
    if chunks == [] then [] else chunks[0] + Flatten(chunks[1..])
  }

  lemma FlattenNothing<T>()
    ensures Flatten<T>([]) == []
  {
  }

  lemma {:induction false} FlattenSnoc<T>(chunks: seq<seq<T>>, c: seq<T>)
    ensures Flatten(chunks + [c]) == Flatten(chunks) + c
  {
    if chunks == [] {
      assert [c][1..] == [];
    } else {
      assert (chunks + [c])[1..] == chunks[1..] + [c];
      FlattenSnoc(chunks[1..], c);
    }
  }

  lemma FlattenTake<T>(chunks: seq<seq<T>>, i: nat)
    requires i < |chunks|
    ensures Flatten(chunks[..i + 1]) == Flatten(chunks[..i]) + chunks[i]
  {
    assert chunks[..i + 1] == chunks[..i] + [chunks[i]];
    FlattenSnoc(chunks[..i], chunks[i]);
  }

  /** `SseEventParser`; `on_event` is modelled by the list of events a call emits, in order. */
  class SseEventParser {
    const oracle: Oracle
    var pending: seq<byte>
    var dataLines: seq<string>

    /** Between calls no complete line is left in the buffer. */
    ghost predicate Valid()
      reads this
    {
      LF !in pending
    }

    /** The abstract machine, given the events emitted so far. */
    ghost function Model(events: seq<Value>): Machine
      reads this
    {
      Machine(pending, Fold(dataLines, events))
    }

    constructor (o: Oracle)
      ensures Valid() && oracle == o && Model([]) == START
    {
      oracle := o;
      pending := [];
      dataLines := [];
    }

    method Push(chunk: seq<byte>) returns (events: seq<Value>)
      requires Valid()
      modifies this
      ensures Valid()
      ensures Model(events) == Absorb(oracle, old(Model([])), chunk)
    {
      PendingFirst(oracle, Model([]), chunk);
      ghost var m := Absorb(oracle, Model([]), chunk);
      pending := pending + chunk;
      events := [];
      var pos := IndexOf(pending, [LF], 0);
      while pos != -1
        invariant pos == IndexOf(pending, [LF], 0)
        invariant Absorb(oracle, Machine([], Fold(dataLines, events)), pending) == m
        decreases |pending|
      {
        NotFound(pending, LF);
        PendingLine(oracle, dataLines, events, pending);
        var line := pending[..pos];
        pending := pending[pos + 1..];
        if line != [] && line[|line| - 1] == CR {
          line := line[..|line| - 1];
        }
        var emitted := ProcessLine(line);
        events := events + emitted;
        pos := IndexOf(pending, [LF], 0);
      }
      NotFound(pending, LF);
      AbsorbPlain(oracle, Machine([], Fold(dataLines, events)), pending);
      assert [] + pending == pending;
    }

    method Finish() returns (events: seq<Value>)
      requires Valid()
      modifies this
      ensures Valid() && Model([]) == START
      ensures Fold([], events) == Finished(oracle, old(Model([])))
    {
      events := [];
      if pending != [] {
        var line := pending;
        pending := [];
        events := ProcessLine(line);
      }
      var emitted := Flush();
      events := events + emitted;
    }

    method ProcessLine(line: seq<byte>) returns (events: seq<Value>)
      modifies this`dataLines
      ensures Fold(dataLines, events) == LineStep(oracle, Fold(old(dataLines), []), Utf8.Lossy(line))
    {
      events := [];
      if line == [] {
        events := Flush();
        return;
      }
      var text := Utf8.Lossy(line);
      if DATA <= text {
        dataLines := dataLines + [TrimStart(text[|DATA|..])];
      }
    }

    method Flush() returns (events: seq<Value>)
      modifies this`dataLines
      ensures dataLines == [] && events == FlushEvents(oracle, old(dataLines))
    {
      events := [];
      if dataLines == [] {
        return;
      }
      var data := Join(dataLines, "\n");
      dataLines := [];
      if Trim(data) == "" || Trim(data) == "[DONE]" {
        return;
      }
      events := [oracle.parseJson(data).GetOr(InvalidSse(oracle, data))];
    }
  }

  /** Events already emitted do not influence the machine; new ones are appended to them. */
  lemma {:induction false} AbsorbEvents(o: Oracle, m: Machine, before: seq<Value>, bs: seq<byte>)
    ensures Absorb(o, m.(fold := After(before, m.fold)), bs).pending == Absorb(o, m, bs).pending
    ensures Absorb(o, m.(fold := After(before, m.fold)), bs).fold == After(before, Absorb(o, m, bs).fold)
    decreases |bs|
  {
    if bs != [] {
      LineStepEvents(o, m.fold, before, Utf8.Lossy(StripCr(m.pending, CR)));
      AbsorbEvents(o, Octet(o, m, bs[0]), before, bs[1..]);
    }
  }

  lemma FinishedEvents(o: Oracle, m: Machine, before: seq<Value>)
    ensures Finished(o, m.(fold := After(before, m.fold))) == After(before, Finished(o, m))
  {
    LineStepEvents(o, m.fold, before, Utf8.Lossy(m.pending));
    var f := if m.pending == [] then m.fold else LineStep(o, m.fold, Utf8.Lossy(m.pending));
    LineStepEvents(o, f, before, "");
  }

  /** A fresh parser fed any list of reads emits exactly the events of the whole body. */
  method StreamEvents(o: Oracle, chunks: seq<seq<byte>>) returns (events: seq<Value>)
    ensures events == BodyEvents(o, Flatten(chunks))
  {
    var parser := new SseEventParser(o);
    events := [];
    for i := 0 to |chunks|
      invariant parser.Valid() && parser.oracle == o
      invariant parser.Model(events) == Absorb(o, START, Flatten(chunks[..i]))
    {
      FlattenTake(chunks, i);
      AbsorbConcat(o, START, Flatten(chunks[..i]), chunks[i]);
      AbsorbEvents(o, parser.Model([]), events, chunks[i]);
      assert After(events, parser.Model([]).fold) == parser.Model(events).fold;
      var emitted := parser.Push(chunks[i]);
      events := events + emitted;
    }
    assert chunks[..|chunks|] == chunks;
    FinishedEvents(o, parser.Model([]), events);
    assert After(events, parser.Model([]).fold) == parser.Model(events).fold;
    var last := parser.Finish();
    events := events + last;
    StreamedEventsAreBodyEvents(o, Flatten(chunks));
  }
}
