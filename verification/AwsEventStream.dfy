/**
 The AWS event-stream parser: binary messages recovered from arbitrary reads, the same for every way of
 cutting the stream, and exact on well-formed streams.
 */
module AwsEventStream {
  import opened Bytes
  import opened Json
  import opened SseStream
  import Text
  import Utf8

  const MAX_AWS_EVENTSTREAM_MESSAGE: nat := 0x10_0000

  // ----- Parsing a whole buffer -----

  /** Events in order, the bytes kept for later, and whether the stream was rejected. */
  datatype Outcome = Outcome(events: seq<Value>, rest: seq<byte>, failed: bool)

  function TotalLen(b: seq<byte>): nat
    requires |b| >= 12
  {
    FromBE(b[..4])
  }

  function HeadersLen(b: seq<byte>): nat
    requires |b| >= 12
  {
    FromBE(b[4..8])
  }

  predicate BadPrelude(b: seq<byte>)
    requires |b| >= 12
  {
    TotalLen(b) < 16 || TotalLen(b) > MAX_AWS_EVENTSTREAM_MESSAGE || HeadersLen(b) > TotalLen(b) - 16
  }

  /** A complete message with an acceptable prelude is at the front. */
  predicate Complete(b: seq<byte>) {
    |b| >= 12 && !BadPrelude(b) && |b| >= TotalLen(b)
  }

  function Payload(b: seq<byte>): seq<byte>
    requires Complete(b)
  {
    b[12 + HeadersLen(b)..TotalLen(b) - 4]
  }

  function PayloadText(b: seq<byte>): string
    requires Complete(b)
  {
    Text.Trim(Utf8.Lossy(Payload(b)))
  }

  function Parse(o: Oracle, b: seq<byte>): (r: Outcome)
    ensures r.failed ==> r.rest == []
    ensures |r.rest| <= |b|
    decreases |b|
  {
    if |b| < 12 then Outcome([], b, false)
    else if BadPrelude(b) then Outcome([], [], true)
    else if |b| < TotalLen(b) then Outcome([], b, false)
    else
      var text := PayloadText(b);
      var value := o.parseJson(text);
      if text == "" then Parse(o, b[TotalLen(b)..])
      else if value.None? then Outcome([], [], true)
      else Then([value.value], Parse(o, b[TotalLen(b)..]))
  }

  function Then(events: seq<Value>, r: Outcome): Outcome {
    r.(events := events + r.events)
  }

  lemma PreludeGrows(a: seq<byte>, b: seq<byte>)
    requires |a| >= 12
    ensures TotalLen(a + b) == TotalLen(a) && HeadersLen(a + b) == HeadersLen(a)
  {
    assert (a + b)[..4] == a[..4] && (a + b)[4..8] == a[4..8];
  }

  lemma MessageGrows(a: seq<byte>, b: seq<byte>)
    requires Complete(a)
    ensures Complete(a + b) && TotalLen(a + b) == TotalLen(a) && PayloadText(a + b) == PayloadText(a)
    ensures (a + b)[TotalLen(a)..] == a[TotalLen(a)..] + b
  {
    hide TotalLen, HeadersLen, Text.Trim, Utf8.Lossy;
    PreludeGrows(a, b);
    assert Payload(a + b) == Payload(a);
  }

  /** Parsing can be suspended anywhere and resumed with the bytes kept. */
  lemma {:induction false} Resume(o: Oracle, a: seq<byte>, b: seq<byte>)
    ensures var r := Parse(o, a);
      Parse(o, a + b) == if r.failed then r else Then(r.events, Parse(o, r.rest + b))
    decreases |a|
  {
    hide TotalLen, HeadersLen, PayloadText;
    if Complete(a) {
      MessageGrows(a, b);
      ResumeMessage(o, a, b);
    } else {
      if |a| >= 12 {
        PreludeGrows(a, b);
      }
      assert Then([], Parse(o, a + b)) == Parse(o, a + b);
    }
  }

  lemma {:induction false} ResumeMessage(o: Oracle, a: seq<byte>, b: seq<byte>)
    requires Complete(a) && Complete(a + b) && TotalLen(a + b) == TotalLen(a) && PayloadText(a + b) == PayloadText(a)
    requires (a + b)[TotalLen(a)..] == a[TotalLen(a)..] + b
    ensures var r := Parse(o, a);
      Parse(o, a + b) == if r.failed then r else Then(r.events, Parse(o, r.rest + b))
    decreases |a|, 0
  {
    hide TotalLen, HeadersLen, PayloadText;
    var rest := a[TotalLen(a)..];
    Resume(o, rest, b);
    var text := PayloadText(a);
    if text != "" && o.parseJson(text).Some? {
      ThenThen(o, [o.parseJson(text).value], Parse(o, rest).events, Parse(o, Parse(o, rest).rest + b));
    }
  }

  lemma ThenThen(o: Oracle, a: seq<Value>, b: seq<Value>, r: Outcome)
    ensures Then(a, Then(b, r)) == Then(a + b, r)
  {
    assert a + (b + r.events) == a + b + r.events;
  }

  /** What is kept is always an incomplete message, hence short. */
  lemma {:induction false} Retained(o: Oracle, b: seq<byte>)
    ensures var r := Parse(o, b); !r.failed ==>
        |r.rest| < MAX_AWS_EVENTSTREAM_MESSAGE && Parse(o, r.rest) == Outcome([], r.rest, false)
    decreases |b|
  {
    if Complete(b) {
      Retained(o, b[TotalLen(b)..]);
    }
  }

  /** One message off the front of the buffer. */
  lemma MessageStep(o: Oracle, events: seq<Value>, pending: seq<byte>)
    requires Complete(pending)
    ensures var text, rest := PayloadText(pending), pending[TotalLen(pending)..];
      Then(events, Parse(o, pending)) ==
      if text == "" then Then(events, Parse(o, rest))
      else if o.parseJson(text).None? then Outcome(events, [], true)
      else Then(events + [o.parseJson(text).value], Parse(o, rest))
  {
    hide TotalLen, HeadersLen, PayloadText;
    var text, rest := PayloadText(pending), pending[TotalLen(pending)..];
    if text != "" {
      if o.parseJson(text).Some? {
        ThenThen(o, events, [o.parseJson(text).value], Parse(o, rest));
      }
    }
  }

  /** Where the loop stops: a prelude or message still incomplete, or a prelude out of bounds. */
  lemma StopStep(o: Oracle, events: seq<Value>, pending: seq<byte>)
    ensures |pending| < 12 || (!BadPrelude(pending) && |pending| < TotalLen(pending))
      ==> Then(events, Parse(o, pending)) == Outcome(events, pending, false)
    ensures |pending| >= 12 && BadPrelude(pending) ==> Then(events, Parse(o, pending)) == Outcome(events, [], true)
  {
    hide TotalLen, HeadersLen;
  }

  // ----- The parser object -----

  /** `AwsEventStreamParser`; `on_event` is modelled by the list of events a call emits, in order. */
  class AwsEventStreamParser {
    const oracle: Oracle
    var pending: seq<byte>
    var failed: bool

    ghost predicate Valid()
      reads this
    {
      && (failed ==> pending == [])
      && |pending| < MAX_AWS_EVENTSTREAM_MESSAGE
    }

    constructor (o: Oracle)
      ensures Valid() && oracle == o && pending == [] && !failed
    {
      oracle := o;
      pending := [];
      failed := false;
    }

    method Push(chunk: seq<byte>) returns (events: seq<Value>)
      requires Valid()
      modifies this
      ensures Valid()
      ensures Outcome(events, pending, failed)
           == if old(failed) then Outcome([], [], true) else Parse(oracle, old(pending) + chunk)
    {
      hide FromBE, Text.Trim, Utf8.Lossy, Parse;
      events := [];
      if failed {
        return;
      }
      pending := pending + chunk;
      ghost var all := pending;
      Retained(oracle, all);
      assert Then([], Parse(oracle, all)) == Parse(oracle, all);
      while true
        invariant !failed && Parse(oracle, all) == Then(events, Parse(oracle, pending))
        decreases |pending|
      {
        StopStep(oracle, events, pending);
        if |pending| < 12 {
          return;
        }
        var totalLen := FromBE(pending[..4]);
        var headersLen := FromBE(pending[4..8]);
        if totalLen < 16 || totalLen > MAX_AWS_EVENTSTREAM_MESSAGE || headersLen > totalLen - 16 {
          failed := true;
          pending := [];
          return;
        }
        if |pending| < totalLen {
          return;
        }
        MessageStep(oracle, events, pending);
        var message := pending[..totalLen];
        // The prelude check leaves 12 + headersLen <= totalLen - 4.
        var payload := message[12 + headersLen..totalLen - 4];
        assert payload == Payload(pending);
        pending := pending[totalLen..];
        var trimmed := Text.Trim(Utf8.Lossy(payload));
        if trimmed == "" {
          continue;
        }
        var parsed := oracle.parseJson(trimmed);
        if parsed.None? {
          failed := true;
          pending := [];
          return;
        }
        events := events + [parsed.value];
      }
    }

    method Finish()
      requires Valid()
      modifies this
      ensures Valid() && pending == []
      ensures failed == (old(failed) || old(pending) != [])
    {
      if pending != [] {
        failed := true;
        pending := [];
      }
    }
  }

  /** Every way of cutting a stream emits the events of the whole buffer and the same verdict. */
  method ParseStream(o: Oracle, chunks: seq<seq<byte>>) returns (events: seq<Value>, failed: bool)
    ensures var r := Parse(o, Flatten(chunks)); events == r.events && failed == (r.failed || r.rest != [])
  {
    var parser := new AwsEventStreamParser(o);
    events := [];
    assert Flatten(chunks[..0]) == [];
    for i := 0 to |chunks|
      invariant parser.Valid() && parser.oracle == o
      invariant Outcome(events, parser.pending, parser.failed) == Parse(o, Flatten(chunks[..i]))
    {
      FlattenTake(chunks, i);
      Resume(o, Flatten(chunks[..i]), chunks[i]);
      var emitted := parser.Push(chunks[i]);
      events := events + emitted;
    }
    assert chunks[..|chunks|] == chunks;
    parser.Finish();
    failed := parser.failed;
  }

  // ----- Well-formed streams -----

  /** A message; the two checksums are not looked at by the parser. */
  datatype Message = Message(headers: seq<byte>, payload: seq<byte>, preludeCrc: seq<byte>, messageCrc: seq<byte>) {
    function Size(): nat {
      16 + |headers| + |payload|
    }

    /** Fits the limit, and its payload is blank or a JSON text. */
    predicate WellFormed(o: Oracle) {
      && |preludeCrc| == 4 && |messageCrc| == 4 && Size() <= MAX_AWS_EVENTSTREAM_MESSAGE
      && (Body() == "" || o.parseJson(Body()).Some?)
    }

    function Body(): string {
      Text.Trim(Utf8.Lossy(payload))
    }

    function Wire(): seq<byte> {
      BE(Size(), 4) + BE(|headers|, 4) + preludeCrc + headers + payload + messageCrc
    }
  }

  function Wires(ms: seq<Message>): seq<byte> {
    if ms == [] then [] else ms[0].Wire() + Wires(ms[1..])
  }

  /** The JSON payloads, in order; blank payloads carry no event. */
  function Payloads(o: Oracle, ms: seq<Message>): seq<Value> {
    if ms == [] then []
    else
      var v := o.parseJson(ms[0].Body());
      (if ms[0].Body() == "" || v.None? then [] else [v.value]) + Payloads(o, ms[1..])
  }

  lemma WirePrelude(m: Message, tail: seq<byte>)
    requires |m.preludeCrc| == 4 && |m.messageCrc| == 4 && m.Size() <= MAX_AWS_EVENTSTREAM_MESSAGE
    ensures var b := m.Wire() + tail;
      && |b| >= 12 && TotalLen(b) == m.Size() == |m.Wire()| && HeadersLen(b) == |m.headers|
      && Complete(b) && b[12 + |m.headers|..m.Size() - 4] == m.payload && b[m.Size()..] == tail
  {
    var b := m.Wire() + tail;
    Powers();
    FromBEOfBE(m.Size(), 4);
    FromBEOfBE(|m.headers|, 4);
    assert b[..4] == BE(m.Size(), 4);
    assert b[4..8] == BE(|m.headers|, 4);
  }

  /** Well-formed messages come back exactly, in order, whatever follows. */
  lemma {:induction false} WellFormedComesBack(o: Oracle, ms: seq<Message>, tail: seq<byte>)
    requires forall i :: 0 <= i < |ms| ==> ms[i].WellFormed(o)
    ensures Parse(o, Wires(ms) + tail) == Then(Payloads(o, ms), Parse(o, tail))
    decreases |ms|
  {
    hide Message.WellFormed, Message.Wire, Parse, Then, Payloads;
    if ms == [] {
      assert Wires(ms) + tail == tail;
      NoPayloads(o, Parse(o, tail));
    } else {
      var rest := Wires(ms[1..]) + tail;
      Regroup(ms[0].Wire(), Wires(ms[1..]), tail);
      WellFormedComesBack(o, ms[1..], tail);
      FrontMessage(o, ms[0], rest);
      PayloadsSplit(o, ms);
      ThenThen(o, Payloads(o, [ms[0]]), Payloads(o, ms[1..]), Parse(o, tail));
    }
  }

  lemma NoPayloads(o: Oracle, r: Outcome)
    ensures Then(Payloads(o, []), r) == r
  {
    assert [] + r.events == r.events;
  }

  lemma Regroup<T>(a: seq<T>, b: seq<T>, c: seq<T>)
    ensures a + b + c == a + (b + c)
  {
  }

  lemma PayloadsSplit(o: Oracle, ms: seq<Message>)
    requires ms != []
    ensures Payloads(o, ms) == Payloads(o, [ms[0]]) + Payloads(o, ms[1..])
  {
    hide Message.Body;
    assert [ms[0]][1..] == [];
  }

  lemma FrontMessage(o: Oracle, m: Message, rest: seq<byte>)
    requires m.WellFormed(o)
    ensures Parse(o, m.Wire() + rest) == Then(Payloads(o, [m]), Parse(o, rest))
  {
    hide TotalLen, HeadersLen, Text.Trim, Utf8.Lossy, Message.Wire;
    WirePrelude(m, rest);
    var b := m.Wire() + rest;
    assert PayloadText(b) == m.Body();
    MessageStep(o, [], b);
    assert Then([], Parse(o, b)) == Parse(o, b);
    assert Then([], Parse(o, rest)) == Parse(o, rest);
    assert [m][1..] == [] && Payloads(o, []) == [];
  }

  /** A stream cut inside a message yields the complete messages and is rejected at the end. */
  lemma TruncationIsRejected(o: Oracle, ms: seq<Message>, last: Message, cut: nat)
    requires forall i :: 0 <= i < |ms| ==> ms[i].WellFormed(o)
    requires last.WellFormed(o) && 0 < cut < |last.Wire()|
    ensures Parse(o, Wires(ms) + last.Wire()[..cut]) == Outcome(Payloads(o, ms), last.Wire()[..cut], false)
  {
    hide Message.WellFormed, Message.Wire, Parse, Payloads, Wires;
    var part := last.Wire()[..cut];
    WellFormedComesBack(o, ms, part);
    PartWaits(o, last, cut);
    assert Payloads(o, ms) + [] == Payloads(o, ms);
  }

  /** A proper part of one message is kept, with no event. */
  lemma PartWaits(o: Oracle, last: Message, cut: nat)
    requires last.WellFormed(o) && 0 < cut < |last.Wire()|
    ensures Parse(o, last.Wire()[..cut]) == Outcome([], last.Wire()[..cut], false)
  {
    hide Message.Wire, TotalLen, HeadersLen, PayloadText, Then, Message.Body;
    var wire := last.Wire();
    WirePrelude(last, []);
    assert wire + [] == wire;
    if cut >= 12 {
      PreludeGrows(wire[..cut], wire[cut..]);
      assert wire[..cut] + wire[cut..] == wire;
    }
  }
}
