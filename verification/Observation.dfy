/**
 One HTTP/1.1 exchange as the host observes it: what is framed, what is hashed and what the field
 collector sees are the same decoded body, and a failure is told apart from success on the wire.
 */
module Observation {
  import opened Bytes
  import opened ChunkedCoding
  import opened ChunkedRun
  import opened Frames
  import opened HttpStream
  import opened SseStream

  datatype Headers = Headers(status: nat, contentType: string, chunked: bool, contentLength: Option<nat>)

  /** Header parsing, the two JSON payloads and the error text: fixed functions that are not modelled further. */
  datatype Texts = Texts(
    parse: seq<byte> -> Option<Headers>,
    head: Headers -> seq<byte>,
    trailer: (Headers, seq<byte>, seq<seq<byte>>) -> seq<byte>,
    error: seq<byte>)

  /** The body of a response and whether it is complete, from all bytes after the header block. */
  function BodyOf(h: Headers, s: seq<byte>): Decoded {
    if h.chunked then Dechunk(s, 0)
    else match h.contentLength
      case Some(n) =>
        if n > MAX_RESP then Decoded([], Broken)
        else if |s| < n then Decoded(s, Broken)
        else Decoded(s[..n], Done)
      case None =>
        if |s| > MAX_RESP then Decoded(s[..MAX_RESP], Broken) else Decoded(s, Done)
  }

  /** The end of the body is marked in the stream itself, so an aborted connection cannot pass for it. */
  predicate SelfDelimiting(h: Headers) {
    h.chunked || h.contentLength.Some?
  }

  /** The body part of `handle`: chunked or plain, whichever the headers say. */
  method StreamBody(h: Headers, leftover: seq<byte>, up: Upstream, sink: Sink) returns (ok: bool)
    requires sink.Valid() && sink.Intact() && sink.fed == []
    modifies up, sink, sink.control
    ensures sink.Valid() && (ok ==> sink.Intact())
    ensures h.chunked ==> Decodes(leftover + old(up.remaining), sink.hashed, ok)
    ensures var r := BodyOf(h, leftover + old(up.remaining)); r.end != Overflow ==>
        && sink.hashed <= r.body
        && (ok && (up.reliable || SelfDelimiting(h)) ==> r.end == Done && sink.hashed == r.body)
        && (!ok && up.reliable && sink.control.reliable ==> r.end == Broken)
  {
    ghost var s := leftover + up.remaining;
    hide Run, Dechunk;
    if h.chunked {
      ghost var n := |up.arrived|;
      ok := StreamChunked(leftover, up, sink);
      ArrivedInStream(leftover, up.arrived[n..], up.remaining, sink.hashed, ok);
    } else {
      ok := StreamPlain(leftover, up, h.contentLength, sink);
      PrefixesOf(sink.hashed, s, BodyOf(h, s).body);
    }
  }

  /**
   For some way the bytes arrived, the body is what the step-by-step decoder forwards: all of it when `whole`,
   else a beginning. This holds for every chunk size, also where the implementation's additions wrap.
   */
  ghost predicate Decodes(s: seq<byte>, body: seq<byte>, whole: bool) {
    exists start, arrivals ::
      start + Flatten(arrivals) <= s && body <= Run(start, arrivals, 0).body
      && (whole ==> Run(start, arrivals, 0) == Decoded(body, Done))
  }

  lemma ArrivedInStream(start: seq<byte>, arrivals: seq<seq<byte>>, rest: seq<byte>, body: seq<byte>, whole: bool)
    requires body <= Run(start, arrivals, 0).body && (whole ==> Run(start, arrivals, 0) == Decoded(body, Done))
    ensures Decodes(start + (Flatten(arrivals) + rest), body, whole)
  {
    hide Run, Flatten;
    assert start + Flatten(arrivals) <= start + (Flatten(arrivals) + rest);
  }

  lemma PrefixesOf<T>(a: seq<T>, s: seq<T>, b: seq<T>)
    requires a <= s && b <= s
    ensures |a| <= |b| ==> a <= b
    ensures |a| == |b| ==> a == b
  {
  }

  /** The frames of a complete exchange. */
  function Complete(t: Texts, h: Headers, pieces: seq<seq<byte>>): seq<Frame> {
    Partial(t, h, pieces) + [Frame(RESP_TRAILER, t.trailer(h, Flatten(pieces), pieces))]
  }

  /** The frames of an exchange that stopped during or right after the body. */
  function Partial(t: Texts, h: Headers, pieces: seq<seq<byte>>): seq<Frame> {
    [Frame(RESP_HEAD, t.head(h))] + ChunkFrames(pieces)
  }

  /** How far an exchange came, with what the header parser found and the pieces that were framed. */
  datatype Progress = Nothing | Started(headers: Headers, pieces: seq<seq<byte>>)

  function FramesOf(t: Texts, p: Progress): seq<Frame> {
    match p
    case Nothing => []
    case Started(h, pieces) => Partial(t, h, pieces)
  }

  /** The pieces framed are the decoded body: all of it when `whole`, else a prefix. */
  ghost predicate Faithful(t: Texts, stream: seq<byte>, reliable: bool, p: Progress, whole: bool) {
    match p
    case Nothing => !whole
    case Started(h, pieces) =>
      var end := IndexOf(stream, HEAD_END, 0);
      && 0 <= end && end + 4 <= |stream|
      && t.parse(stream[..end]) == Some(h)
      && (h.chunked ==> Decodes(stream[end + 4..], Flatten(pieces), whole))
      && var r := BodyOf(h, stream[end + 4..]);
         r.end != Overflow ==>
           && Flatten(pieces) <= r.body
           && (whole && (reliable || SelfDelimiting(h)) ==> r.end == Done && Flatten(pieces) == r.body)
  }

  lemma {:induction false} FlattenPrefix<T>(a: seq<seq<T>>, b: seq<seq<T>>)
    requires a <= b
    ensures Flatten(a) <= Flatten(b)
    decreases |a|
  {
    if a != [] {
      FlattenPrefix(a[1..], b[1..]);
    }
  }

  lemma FaithfulNothing(t: Texts, stream: seq<byte>, reliable: bool)
    ensures Faithful(t, stream, reliable, Nothing, false)
  {
  }

  /** What the body part promises makes the whole exchange faithful. */
  lemma FaithfulStarted(t: Texts, stream: seq<byte>, reliable: bool, head: seq<byte>, h: Headers, hashed: seq<byte>,
                        streamed: bool,
                        pieces: seq<seq<byte>>, ok: bool)
    requires IndexOf(stream, HEAD_END, 0) == |head| && |head| + 4 <= |stream| && stream[..|head|] == head
    requires t.parse(head) == Some(h)
    requires h.chunked ==> Decodes(stream[|head| + 4..], hashed, streamed)
    requires var r := BodyOf(h, stream[|head| + 4..]); r.end != Overflow ==>
      hashed <= r.body && (streamed && (reliable || SelfDelimiting(h)) ==> r.end == Done && hashed == r.body)
    requires Flatten(pieces) <= hashed && (ok ==> streamed && Flatten(pieces) == hashed)
    ensures Faithful(t, stream, reliable, Started(h, pieces), ok)
  {
    hide IndexOf, Dechunk, BodyOf, Flatten, Run;
  }

  /** A complete header block within the limit that the parser accepts. */
  predicate HeadArrives(t: Texts, stream: seq<byte>) {
    var end := IndexOf(stream, HEAD_END, 0);
    0 <= end && end + 4 <= |stream| && end + 4 <= MAX_HEAD + 1 && t.parse(stream[..end]).Some?
  }

  lemma PartialFrames(before: seq<Frame>, t: Texts, h: Headers, pieces: seq<seq<byte>>)
    ensures before + [Frame(RESP_HEAD, t.head(h))] + ChunkFrames(pieces) == before + Partial(t, h, pieces)
  {
    hide ChunkFrames;
    Assoc(before, [Frame(RESP_HEAD, t.head(h))], ChunkFrames(pieces));
  }

  lemma CompleteFrames(before: seq<Frame>, t: Texts, h: Headers, pieces: seq<seq<byte>>)
    ensures before + Partial(t, h, pieces) + [Frame(RESP_TRAILER, t.trailer(h, Flatten(pieces), pieces))]
        == before + Complete(t, h, pieces)
  {
    hide Partial, Flatten;
    Assoc(before, Partial(t, h, pieces), [Frame(RESP_TRAILER, t.trailer(h, Flatten(pieces), pieces))]);
  }

  lemma HeadSplit(head: seq<byte>, leftover: seq<byte>, rest: seq<byte>)
    ensures var stream := head + HEAD_END + leftover + rest;
      stream[..|head|] == head && stream[|head| + 4..] == leftover + rest
  {
  }

  /** The response part of `handle`; the trailer is built from the hashed bytes and the collector's pieces. */
  method Handle(t: Texts, up: Upstream, control: Control) returns (ok: bool, ghost p: Progress)
    requires control.Valid()
    modifies up, control
    ensures control.Valid()
    ensures ok ==> p.Started?
    ensures control.frames == old(control.frames) + (if ok then Complete(t, p.headers, p.pieces) else FramesOf(t, p))
    ensures Faithful(t, old(up.remaining), up.reliable, p, ok)
    ensures up.reliable && control.reliable && HeadArrives(t, old(up.remaining)) ==>
              p.Started? &&
              var r := BodyOf(p.headers, old(up.remaining)[IndexOf(old(up.remaining), HEAD_END, 0) + 4..]);
              r.end != Overflow ==> (ok <==> r.end == Done)
  {
    hide IndexOf, Dechunk, BodyOf, Flatten, ChunkFrames, Wires, Decodes, Faithful, Partial, Complete;
    p := Nothing;
    FaithfulNothing(t, up.remaining, up.reliable);
    ghost var f0, stream := control.frames, up.remaining;
    var found, head, leftover := ReadUntilHeaders(up);
    if !found {
      ok := false;
      return;
    }
    HeadSplit(head, leftover, up.remaining);
    var h := t.parse(head);
    if h.None? {
      ok := false;
      return;
    }
    ok := control.WriteFrame(RESP_HEAD, t.head(h.value));
    if !ok {
      return;
    }
    var sink := new Sink(control);
    ok := StreamBody(h.value, leftover, up, sink);
    p := Started(h.value, sink.sent);
    FlattenPrefix(sink.sent, sink.fed);
    PartialFrames(f0, t, h.value, sink.sent);
    FaithfulStarted(t, stream, up.reliable, head, h.value, sink.hashed, ok, sink.sent, false);
    if !ok {
      return;
    }
    FaithfulStarted(t, stream, up.reliable, head, h.value, sink.hashed, ok, sink.sent, true);
    ok := control.WriteFrame(RESP_TRAILER, t.trailer(h.value, sink.hashed, sink.fed));
    if ok {
      CompleteFrames(f0, t, h.value, sink.sent);
    }
  }

  // ----- Reading the wire -----

  /** Every payload fits a frame. */
  predicate Small(t: Texts, p: Progress) {
    && |t.error| < 0x1_0000_0000
    && (p.Started? ==>
          && |t.head(p.headers)| < 0x1_0000_0000
          && |t.trailer(p.headers, Flatten(p.pieces), p.pieces)| < 0x1_0000_0000
          && forall i :: 0 <= i < |p.pieces| ==> |p.pieces[i]| < 0x1_0000_0000)
  }

  lemma {:induction false} PieceWithin<T>(pieces: seq<seq<T>>, i: nat)
    requires i < |pieces|
    ensures |pieces[i]| <= |Flatten(pieces)|
    decreases |pieces|
  {
    if i > 0 {
      PieceWithin(pieces[1..], i - 1);
    }
  }

  lemma BodyIsBounded(h: Headers, s: seq<byte>)
    requires BodyOf(h, s).end != Overflow
    ensures |BodyOf(h, s).body| <= MAX_RESP
  {
    if h.chunked {
      BodyWithinLimit(s, 0);
    }
  }

  /** Where no chunk size wraps, the response limit keeps every piece small. */
  lemma PiecesAreSmall(t: Texts, stream: seq<byte>, reliable: bool, p: Progress, ok: bool)
    requires Faithful(t, stream, reliable, p, ok) && p.Started?
    requires BodyOf(p.headers, stream[IndexOf(stream, HEAD_END, 0) + 4..]).end != Overflow
    ensures forall i :: 0 <= i < |p.pieces| ==> |p.pieces[i]| <= MAX_RESP
  {
    hide IndexOf, Dechunk, BodyOf, Flatten, Decodes;
    BodyIsBounded(p.headers, stream[IndexOf(stream, HEAD_END, 0) + 4..]);
    forall i | 0 <= i < |p.pieces|
      ensures |p.pieces[i]| <= MAX_RESP
    {
      PieceWithin(p.pieces, i);
    }
  }

  /** The exchange a run leaves behind: complete, or stopped and possibly reported. */
  function Observed(t: Texts, p: Progress, ok: bool, reported: bool): seq<Frame> {
    if ok && p.Started? then Complete(t, p.headers, p.pieces)
    else FramesOf(t, p) + (if reported then [Frame(ERR, t.error)] else [])
  }

  /**
   The host decodes the wire back into exactly the frames written, and the last frame tells whether the
   exchange is complete.
   */
  lemma WireIsReadBack(t: Texts, p: Progress, ok: bool, reported: bool)
    requires Small(t, p) && (ok ==> p.Started?)
    ensures var fs := Observed(t, p, ok, reported);
      && ReadAll(Wires(fs), 0xFFFF_FFFF) == Some(fs)
      && (ok <==> fs != [] && fs[|fs| - 1].tag == RESP_TRAILER)
  {
    hide Wires, ReadAll, Flatten;
    FramesRoundTrip(Observed(t, p, ok, reported), 0xFFFF_FFFF);
  }

  /**
   One exchange: the frames of `handle`, then an ERR frame if it failed. The host reads exactly these frames
   from the wire, and the last one is a trailer if and only if the exchange succeeded.
   */
  method Serve(t: Texts, up: Upstream, control: Control) returns (ok: bool, ghost p: Progress)
    requires control.Valid() && control.frames == []
    modifies up, control
    ensures control.Valid()
    ensures ok ==> p.Started? && control.frames == Complete(t, p.headers, p.pieces)
    ensures !ok ==> control.frames == FramesOf(t, p) + [Frame(ERR, t.error)] || (!control.reliable && control.frames == FramesOf(t, p))
    ensures Faithful(t, old(up.remaining), up.reliable, p, ok)
    ensures Small(t, p) ==>
              ReadAll(control.out, 0xFFFF_FFFF) == Some(control.frames)
              && (ok <==> control.frames != [] && control.frames[|control.frames| - 1].tag == RESP_TRAILER)
  {
    hide Faithful, Wires, ReadAll, Small;
    ok, p := Handle(t, up, control);
    var reported := false;
    if !ok {
      reported := control.WriteFrame(ERR, t.error);
    }
    assert control.frames == Observed(t, p, ok, reported);
    if Small(t, p) {
      WireIsReadBack(t, p, ok, reported);
    }
  }

  // ----- An encoded response, end to end -----

  lemma AfterHead(head: seq<byte>, body: seq<byte>)
    requires IndexOf(head + HEAD_END, HEAD_END, 0) == |head|
    ensures var stream := head + HEAD_END + body;
      IndexOf(stream, HEAD_END, 0) == |head| && stream[..|head|] == head && stream[|head| + 4..] == body
  {
    hide At, IndexOf;
    IndexOfExtend(head + HEAD_END, body, HEAD_END, 0);
  }

  /**
   A chunked response, whatever its chunks, extensions and reads: a run that reaches the trailer has shown
   the host exactly the concatenation of the chunk data.
   */
  lemma ChunkedExchange(t: Texts, head: seq<byte>, cs: seq<Chunk>, last: seq<byte>, tail: seq<byte>, reliable: bool,
                        p: Progress)
    requires IndexOf(head + HEAD_END, HEAD_END, 0) == |head|
    requires t.parse(head).Some? && t.parse(head).value.chunked
    requires Encodable(cs) && ValidExtension(last) && |Body(cs)| <= MAX_RESP
    requires Faithful(t, head + HEAD_END + (Encode(cs, last) + tail), reliable, p, true)
    ensures p.Started? && t.parse(head) == Some(p.headers) && Flatten(p.pieces) == Body(cs)
  {
    hide At, IndexOf, Dechunk, Encode, Encodable, ValidExtension, Flatten, Body;
    AfterHead(head, Encode(cs, last) + tail);
    DechunkOfEncode(cs, last, tail, 0);
  }

  /** Cut before the end of its last-chunk line, the same response never reaches the trailer. */
  lemma CutExchangeHasNoTrailer(t: Texts, head: seq<byte>, cs: seq<Chunk>, last: seq<byte>, cut: nat, reliable: bool,
                                p: Progress, whole: bool)
    requires IndexOf(head + HEAD_END, HEAD_END, 0) == |head|
    requires t.parse(head).Some? && t.parse(head).value.chunked
    requires Encodable(cs) && ValidExtension(last) && |Body(cs)| <= MAX_RESP && cut < |Encode(cs, last)|
    requires Faithful(t, head + HEAD_END + Encode(cs, last)[..cut], reliable, p, whole)
    ensures !whole && (p.Started? ==> Flatten(p.pieces) <= Body(cs))
  {
    hide At, IndexOf, Dechunk, Encode, Encodable, ValidExtension, Flatten, Body;
    AfterHead(head, Encode(cs, last)[..cut]);
    CutIsBroken(cs, last, cut, 0);
    if p.Started? {
      PrefixTrans(Flatten(p.pieces), Dechunk(Encode(cs, last)[..cut], 0).body, Body(cs));
    }
  }

  lemma PrefixTrans<T>(a: seq<T>, b: seq<T>, c: seq<T>)
    requires b <= c
    ensures a <= b ==> a <= c
  {
  }
}
