/**
 Reading an HTTP/1.1 response from a connection that delivers bytes in reads of arbitrary size, and
 forwarding its body through the sink that hashes, collects and frames every piece.
 */
module HttpStream {
  import opened Bytes
  import opened ChunkedCoding
  import opened ChunkedRun
  import opened Frames
  import opened SseStream

  const MAX_HEAD: nat := 0x1_0000

  // ----- The two ends -----

  /** `Aborted` stands for the error kinds UnexpectedEof and ConnectionAborted. */
  datatype ReadResult = Data(bytes: seq<byte>) | Eof | Aborted | Failed

  /** The upstream connection: every read delivers some of the bytes to come, as many as it likes. */
  class Upstream {
    var remaining: seq<byte>
    /** What the reads have delivered, one piece each. */
    ghost var arrived: seq<seq<byte>>
    const reliable: bool

    constructor (bytes: seq<byte>, reliable: bool)
      ensures remaining == bytes && arrived == [] && this.reliable == reliable
    {
      remaining := bytes;
      arrived := [];
      this.reliable := reliable;
    }

    method Read(cap: nat) returns (r: ReadResult)
      requires cap > 0
      modifies this
      ensures r.Data? ==> 1 <= |r.bytes| <= cap && old(remaining) == r.bytes + remaining
      ensures !r.Data? ==> remaining == old(remaining)
      ensures arrived == if r.Data? then old(arrived) + [r.bytes] else old(arrived)
      ensures r.Eof? ==> remaining == []
      ensures reliable ==> r.Data? || r.Eof?
    {
      var fault: nat := *;
      if !reliable && fault == 1 {
        return Aborted;
      }
      if !reliable && fault == 2 {
        return Failed;
      }
      if remaining == [] {
        return Eof;
      }
      var n: nat :| 1 <= n <= cap && n <= |remaining|;
      r := Data(remaining[..n]);
      remaining := remaining[n..];
      arrived := arrived + [r.bytes];
    }
  }

  /** The host side of the enclave: whole frames; a write that fails emits nothing. */
  class Control {
    var out: seq<byte>
    ghost var frames: seq<Frame>
    const reliable: bool

    ghost predicate Valid()
      reads this
    {
      out == Wires(frames)
    }

    constructor (reliable: bool)
      ensures Valid() && frames == [] && this.reliable == reliable
    {
      out := [];
      frames := [];
      this.reliable := reliable;
    }

    method WriteFrame(tag: byte, data: seq<byte>) returns (ok: bool)
      requires Valid()
      modifies this
      ensures Valid()
      ensures frames == if ok then old(frames) + [Frame(tag, data)] else old(frames)
      ensures reliable ==> ok
    {
      ok := *;
      ok := ok || reliable;
      if ok {
        WiresConcat(frames, [Frame(tag, data)]);
        assert Wires([Frame(tag, data)]) == Wire(Frame(tag, data)) + Wires([]);
        out := out + Wire(Frame(tag, data));
        frames := frames + [Frame(tag, data)];
      }
    }
  }

  function ChunkFrames(pieces: seq<seq<byte>>): (fs: seq<Frame>)
    ensures |fs| == |pieces|
  {
    seq(|pieces|, i requires 0 <= i < |pieces| => Frame(RESP_CHUNK, pieces[i]))
  }

  /** The body sink: hash, collector, frame, in that order for every piece. */
  class Sink {
    const control: Control
    /** What the hash has absorbed. */
    var hashed: seq<byte>
    /** The pieces handed to the field collector. */
    var fed: seq<seq<byte>>
    /** The pieces sent as frames, and the frames sent before the body. */
    ghost var sent: seq<seq<byte>>
    ghost const before: seq<Frame>

    ghost predicate Valid()
      reads this, control
    {
      && control.Valid()
      && hashed == Flatten(fed)
      && control.frames == before + ChunkFrames(sent)
      && sent <= fed
    }

    /** No write has failed so far. */
    ghost predicate Intact()
      reads this
    {
      sent == fed
    }

    constructor (control: Control)
      requires control.Valid()
      ensures Valid() && Intact() && this.control == control && before == control.frames && hashed == [] && fed == []
    {
      this.control := control;
      hashed := [];
      fed := [];
      sent := [];
      before := control.frames;
    }

    method Accept(piece: seq<byte>) returns (ok: bool)
      requires Valid() && Intact()
      modifies this, control
      ensures Valid() && (ok ==> Intact())
      ensures hashed == old(hashed) + piece && fed == old(fed) + [piece]
      ensures sent == if ok then old(sent) + [piece] else old(sent)
      ensures control.reliable ==> ok
    {
      FlattenSnoc(fed, piece);
      hashed := hashed + piece;
      fed := fed + [piece];
      ok := control.WriteFrame(RESP_CHUNK, piece);
      if ok {
        sent := sent + [piece];
        assert ChunkFrames(sent) == ChunkFrames(old(sent)) + [Frame(RESP_CHUNK, piece)];
      }
    }
  }

  // ----- Response head -----

  const HEAD_END: seq<byte> := [13, 10, 13, 10]

  /** `read_until_headers`. */
  method ReadUntilHeaders(up: Upstream) returns (ok: bool, head: seq<byte>, leftover: seq<byte>)
    modifies up
    ensures ok ==> old(up.remaining) == head + HEAD_END + leftover + up.remaining
    ensures ok ==> IndexOf(old(up.remaining), HEAD_END, 0) == |head|
    ensures !ok && up.reliable ==>
              IndexOf(old(up.remaining), HEAD_END, 0) == -1 || IndexOf(old(up.remaining), HEAD_END, 0) + 4 > MAX_HEAD + 1
  {
    var buf: seq<byte> := [];
    ok, head, leftover := false, [], [];
    ghost var all := up.remaining;
    while true
      invariant all == buf + up.remaining
      decreases |up.remaining|
    {
      var pos := IndexOf(buf, HEAD_END, 0);
      if pos != -1 {
        IndexOfExtend(buf, up.remaining, HEAD_END, 0);
        leftover := buf[pos + 4..];
        head := buf[..pos];
        assert buf == head + HEAD_END + leftover;
        ok := true;
        return;
      }
      if |buf| > MAX_HEAD {
        LateMatch(buf, up.remaining);
        return;
      }
      var r := up.Read(4096);
      match r {
        case Data(bytes) =>
          Assoc(buf, bytes, up.remaining);
          buf := buf + bytes;
        case _ =>
          assert buf + [] == buf;
          return;
      }
    }
  }

  lemma LateMatch(buf: seq<byte>, rest: seq<byte>)
    requires IndexOf(buf, HEAD_END, 0) == -1
    ensures var p := IndexOf(buf + rest, HEAD_END, 0); p == -1 || p + 4 > |buf|
  {
    var p := IndexOf(buf + rest, HEAD_END, 0);
    if p != -1 && p + 4 <= |buf| {
      assert buf[p..p + 4] == (buf + rest)[p..p + 4];
      assert At(buf, HEAD_END, p);
    }
  }

  // ----- Chunked bodies -----

  /** Reads until a complete line is buffered, or fails. `got` is what arrived meanwhile. */
  method FillLine(given: seq<byte>, up: Upstream) returns (p: int, buf: seq<byte>, ghost got: seq<seq<byte>>)
    modifies up
    ensures p == IndexOf(buf, CRLF, 0)
    ensures p == -1 && up.reliable ==> up.remaining == []
    ensures LineSame(given, got, buf) && Arrived(got, old(up.remaining), up.remaining)
    ensures up.arrived == old(up.arrived) + got
    ensures |given| + |old(up.remaining)| == |buf| + |up.remaining|
  {
    hide IndexOf, LineSame, Flatten;
    buf, got := given, [];
    NothingGot(given, 0);
    NothingArrived(up.remaining);
    p := IndexOf(buf, CRLF, 0);
    while p == -1
      invariant p == IndexOf(buf, CRLF, 0)
      invariant LineSame(given, got, buf) && Arrived(got, old(up.remaining), up.remaining)
      invariant up.arrived == old(up.arrived) + got
      invariant |given| + |old(up.remaining)| == |buf| + |up.remaining|
      decreases |up.remaining|
    {
      ghost var before := up.remaining;
      var r := up.Read(16384);
      if !r.Data? {
        return;
      }
      LineRead(given, got, buf, r.bytes);
      OneMore(got, old(up.remaining), before, r.bytes, up.remaining);
      got := got + [r.bytes];
      buf := buf + r.bytes;
      p := IndexOf(buf, CRLF, 0);
    }
  }

  /** Reads until `need` octets are buffered or the connection ends. */
  method FillChunk(given: seq<byte>, up: Upstream, need: nat) returns (ok: bool, buf: seq<byte>,
                   ghost got: seq<seq<byte>>)
    modifies up
    ensures ok ==> |buf| >= need || up.remaining == []
    ensures up.reliable ==> ok
    ensures DataSame(given, got, buf, need) && Arrived(got, old(up.remaining), up.remaining)
    ensures up.arrived == old(up.arrived) + got
    ensures |given| + |old(up.remaining)| == |buf| + |up.remaining|
  {
    hide DataSame, Flatten;
    buf, got := given, [];
    NothingGot(given, need);
    NothingArrived(up.remaining);
    while |buf| < need
      invariant DataSame(given, got, buf, need) && Arrived(got, old(up.remaining), up.remaining)
      invariant up.arrived == old(up.arrived) + got
      invariant |given| + |old(up.remaining)| == |buf| + |up.remaining|
      decreases |up.remaining|
    {
      ghost var before := up.remaining;
      var r := up.Read(16384);
      match r {
        case Data(bytes) =>
          DataRead(given, got, buf, need, bytes);
          OneMore(got, old(up.remaining), before, bytes, up.remaining);
          got := got + [bytes];
          buf := buf + bytes;
        case Eof =>
          ok := true;
          return;
        case _ =>
          ok := false;
          return;
      }
    }
    ok := true;
  }

  /** The arrivals are what is gone from the stream, and nothing arrives when nothing is left. */
  ghost predicate Arrived(got: seq<seq<byte>>, before: seq<byte>, after: seq<byte>) {
    Flatten(got) + after == before && (before == [] ==> got == [])
  }

  lemma NothingArrived(remaining: seq<byte>)
    ensures Arrived([], remaining, remaining)
  {
    assert [] + remaining == remaining;
  }

  lemma OneMore(got: seq<seq<byte>>, start: seq<byte>, before: seq<byte>, bytes: seq<byte>, after: seq<byte>)
    requires Arrived(got, start, before) && before == bytes + after && bytes != []
    ensures Arrived(got + [bytes], start, after)
  {
    FlattenSnoc(got, bytes);
    Assoc(Flatten(got), bytes, after);
  }

  lemma ThenArrived(a: seq<seq<byte>>, b: seq<seq<byte>>, start: seq<byte>, middle: seq<byte>, end: seq<byte>)
    requires Arrived(a, start, middle) && Arrived(b, middle, end)
    ensures Arrived(a + b, start, end)
  {
    FlattenConcat(a, b);
    Assoc(Flatten(a), Flatten(b), end);
  }

  /** The part of `stream_chunked` that forwards the data of one chunk. */
  method ForwardData(given: seq<byte>, up: Upstream, sink: Sink, size: nat, total: nat,
                     ghost start: seq<byte>, ghost past: seq<seq<byte>>, ghost whole: seq<byte>)
    returns (ok: bool, buf: seq<byte>, ghost got: seq<seq<byte>>)
    requires sink.Valid() && sink.Intact()
    requires InData(start, past, sink.hashed, given, size, total, up.remaining == []) && Arrived(past, whole, up.remaining)
    modifies up, sink, sink.control
    ensures sink.Valid() && (ok ==> sink.Intact())
    ensures Arrived(past + got, whole, up.remaining) && up.arrived == old(up.arrived) + got
    ensures Behind(start, past + got, sink.hashed, up.remaining == [])
    ensures ok ==> Going(start, past + got, sink.hashed, buf, total, up.remaining == [])
    ensures ok ==> |buf| + |up.remaining| <= |given| + |old(up.remaining)|
    ensures up.reliable && sink.control.reliable ==> ok
  {
    hide Flatten, ChunkFrames, Wires, Going, InData, Behind, DataSame, Arrived, AfterCrlf;
    ghost var before := up.remaining;
    ok, buf, got := FillChunk(given, up, (size + 2) % USIZE);
    ThenArrived(past, got, whole, before, up.remaining);
    DataStage(start, past, sink.hashed, given, size, total, before, got, buf, up.remaining);
    if !ok {
      return;
    }
    var take := if size <= |buf| then size else |buf|;
    ok := sink.Accept(buf[..take]);
    buf := AfterCrlf(buf[take..]);
  }

  /**
   `stream_chunked`: the sink receives exactly what the step-by-step decoder forwards for what arrived, for
   every read schedule and every chunk size; and where no size wraps, exactly what the reference decoder finds
   in the leftover bytes followed by everything the connection delivers, within the response limit.
   */
  method StreamChunked(leftover: seq<byte>, up: Upstream, sink: Sink) returns (ok: bool)
    requires sink.Valid() && sink.Intact() && sink.fed == []
    modifies up, sink, sink.control
    ensures sink.Valid() && (ok ==> sink.Intact())
    ensures |old(up.arrived)| <= |up.arrived|
    ensures old(up.remaining) == Flatten(up.arrived[|old(up.arrived)|..]) + up.remaining
    ensures var r := Run(leftover, up.arrived[|old(up.arrived)|..], 0);
        && sink.hashed <= r.body
        && (ok ==> r == Decoded(sink.hashed, Done))
        && (!ok && up.reliable && sink.control.reliable ==> r == Decoded(sink.hashed, Broken))
    ensures var r := Dechunk(leftover + old(up.remaining), 0); r.end != Overflow ==>
        && |sink.hashed| <= MAX_RESP && sink.hashed <= r.body
        && (ok ==> r.end == Done && sink.hashed == r.body)
        && (!ok && up.reliable && sink.control.reliable ==> r.end == Broken && sink.hashed == r.body)
  {
    hide IndexOf, ChunkSize, Dechunk, Flatten, ChunkFrames, Wires, Run, Going, InData, Settled, Behind, LineSame,
         Arrived;
    FlattenNothing<byte>();
    var buf := leftover;
    var total: nat := 0;
    ghost var past: seq<seq<byte>> := [];
    Begins(leftover, up.remaining == []);
    NothingArrived(up.remaining);
    ok := false;
    while true
      invariant sink.Valid() && sink.Intact() && !ok
      invariant Going(leftover, past, sink.hashed, buf, total, up.remaining == [])
      invariant Arrived(past, old(up.remaining), up.remaining) && up.arrived == old(up.arrived) + past
      decreases |buf| + |up.remaining|
    {
      ghost var given, start := buf, up.remaining;
      var p: int;
      ghost var got: seq<seq<byte>>;
      p, buf, got := FillLine(buf, up);
      ThenArrived(past, got, old(up.remaining), start, up.remaining);
      LineStage(leftover, past, sink.hashed, given, total, start, got, buf, up.remaining);
      past := past + got;
      if p == -1 {
        break;
      }
      var size := ChunkSize(buf[..p]);
      if size.None? {
        break;
      }
      if size.value == 0 {
        ok := true;
        break;
      }
      total := (total + size.value) % USIZE;
      if total > MAX_RESP {
        break;
      }
      var sent: bool;
      sent, buf, got := ForwardData(buf[p + 2..], up, sink, size.value, total, leftover, past, old(up.remaining));
      past := past + got;
      if !sent {
        break;
      }
    }
    assert up.arrived[|old(up.arrived)|..] == past;
    ArrivedIs(past, old(up.remaining), up.remaining);
    Concluded(leftover, past, up.remaining, sink.hashed);
  }

  /** What one line read tells. */
  lemma LineStage(start: seq<byte>, past: seq<seq<byte>>, forwarded: seq<byte>, given: seq<byte>, total: nat,
                  before: seq<byte>,
                  got: seq<seq<byte>>, buf: seq<byte>, after: seq<byte>)
    requires Going(start, past, forwarded, given, total, before == []) && LineSame(given, got, buf)
    requires Arrived(got, before, after)
    ensures Behind(start, past + got, forwarded, after == [])
    ensures var p := IndexOf(buf, CRLF, 0);
      if p == -1 then after == [] ==> Settled(start, past + got, forwarded, Broken, true)
      else
        var size := ChunkSize(buf[..p]);
        if size.None? then Settled(start, past + got, forwarded, Broken, after == [])
        else if size.value == 0 then Settled(start, past + got, forwarded, Done, after == [])
        else if (total + size.value) % USIZE > MAX_RESP then Settled(start, past + got, forwarded, Broken, after == [])
        else InData(start, past + got, forwarded, buf[p + 2..], size.value, (total + size.value) % USIZE, after == [])
  {
    hide Going, InData, Settled, Behind, LineSame, Flatten, IndexOf, ChunkSize;
    NothingLeft(got, before, after);
    AfterLine(start, past, forwarded, given, total, before == [], got, buf, after == []);
    GoingIsBehind(start, past + got, forwarded, buf, total, after == []);
    if IndexOf(buf, CRLF, 0) != -1 {
      LineDecides(start, past + got, forwarded, buf, total, after == []);
    } else if after == [] {
      NoMoreLines(start, past + got, forwarded, buf, total);
    }
  }

  /** What one data read tells. */
  lemma DataStage(start: seq<byte>, past: seq<seq<byte>>, forwarded: seq<byte>, given: seq<byte>, size: nat,
                  total: nat, before: seq<byte>,
                  got: seq<seq<byte>>, buf: seq<byte>, after: seq<byte>)
    requires InData(start, past, forwarded, given, size, total, before == []) && Arrived(got, before, after)
    requires DataSame(given, got, buf, (size + 2) % USIZE)
    ensures Behind(start, past + got, forwarded, after == [])
    ensures |buf| >= (size + 2) % USIZE || after == [] ==>
              var take := Min(size, |buf|);
              Going(start, past + got, forwarded + buf[..take], AfterCrlf(buf[take..]), total, after == [])
              && Behind(start, past + got, forwarded + buf[..take], after == [])
  {
    hide Going, InData, Behind, DataSame, Flatten, AfterCrlf;
    NothingLeft(got, before, after);
    InDataIsBehind(start, past, forwarded, given, size, total, before == [], got, after == []);
    if |buf| >= (size + 2) % USIZE || after == [] {
      var take := Min(size, |buf|);
      AfterData(start, past, forwarded, given, size, total, before == [], got, buf, after == []);
      GoingIsBehind(start, past + got, forwarded + buf[..take], AfterCrlf(buf[take..]), total, after == []);
    }
  }

  lemma NothingLeft(got: seq<seq<byte>>, before: seq<byte>, after: seq<byte>)
    requires Arrived(got, before, after)
    ensures before == [] ==> got == [] && after == []
  {
  }

  lemma ArrivedIs(got: seq<seq<byte>>, before: seq<byte>, after: seq<byte>)
    requires Arrived(got, before, after)
    ensures before == Flatten(got) + after
  {
  }

  // ----- Plain bodies -----

  /** `stream_plain`. */
  method StreamPlain(initial: seq<byte>, up: Upstream, contentLength: Option<nat>, sink: Sink) returns (ok: bool)
    requires sink.Valid() && sink.Intact() && sink.fed == []
    modifies up, sink, sink.control
    ensures sink.Valid() && (ok ==> sink.Intact())
    ensures sink.hashed <= initial + old(up.remaining) && |sink.hashed| <= MAX_RESP
    ensures match contentLength
      case Some(n) =>
        && |sink.hashed| <= n && (n > MAX_RESP ==> sink.hashed == [])
        && (ok ==> |sink.hashed| == n <= MAX_RESP)
        && (!ok && up.reliable && sink.control.reliable ==> n > MAX_RESP || |initial + old(up.remaining)| < n)
      case None =>
        && (ok && up.reliable ==> sink.hashed == initial + old(up.remaining))
        && (!ok && up.reliable && sink.control.reliable ==> |initial + old(up.remaining)| > MAX_RESP)
  {
    if contentLength.Some? {
      ok := StreamLength(initial, up, contentLength.value, sink);
    } else {
      ok := StreamUntilClose(initial, up, sink);
    }
  }

  /** The part of `stream_plain` with a declared length. */
  method StreamLength(initial: seq<byte>, up: Upstream, cl: nat, sink: Sink) returns (ok: bool)
    requires sink.Valid() && sink.Intact() && sink.fed == []
    modifies up, sink, sink.control
    ensures sink.Valid() && (ok ==> sink.Intact())
    ensures sink.hashed <= initial + old(up.remaining) && |sink.hashed| <= MAX_RESP
    ensures |sink.hashed| <= cl && (ok ==> |sink.hashed| == cl)
    ensures cl > MAX_RESP ==> sink.hashed == [] && !ok
    ensures !ok && up.reliable && sink.control.reliable ==> cl > MAX_RESP || |initial + old(up.remaining)| < cl
  {
    hide Flatten, ChunkFrames, Wires;
    FlattenNothing<byte>();
    ghost var whole := initial + up.remaining;
    ok := false;
    if cl > MAX_RESP {
      return;
    }
    var initialBody := if |initial| <= cl then |initial| else cl;
    var total: nat := initialBody;
    if initialBody > 0 {
      ok := sink.Accept(initial[..initialBody]);
      if !ok {
        return;
      }
    }
    assert sink.hashed == initial[..initialBody];
    while total < cl
      invariant total <= cl && (total < cl ==> initialBody == |initial|)
      invariant sink.Valid() && sink.Intact() && |sink.hashed| == total && sink.hashed <= whole
      invariant initialBody == |initial| ==> whole == sink.hashed + up.remaining
      decreases cl - total
    {
      var limit := if cl - total <= 16384 then cl - total else 16384;
      var r := up.Read(limit);
      if !r.Data? {
        return false;
      }
      total := total + |r.bytes|;
      Assoc(sink.hashed, r.bytes, up.remaining);
      ok := sink.Accept(r.bytes);
      if !ok {
        return;
      }
    }
    ok := true;
  }

  /** The part of `stream_plain` that reads to the end of the connection; an aborted read counts as the end. */
  method StreamUntilClose(initial: seq<byte>, up: Upstream, sink: Sink) returns (ok: bool)
    requires sink.Valid() && sink.Intact() && sink.fed == []
    modifies up, sink, sink.control
    ensures sink.Valid() && (ok ==> sink.Intact())
    ensures sink.hashed <= initial + old(up.remaining) && |sink.hashed| <= MAX_RESP
    ensures ok && up.reliable ==> sink.hashed == initial + old(up.remaining)
    ensures !ok && up.reliable && sink.control.reliable ==> |initial + old(up.remaining)| > MAX_RESP
  {
    hide Flatten, ChunkFrames, Wires;
    FlattenNothing<byte>();
    var total: nat := 0;
    ghost var whole := initial + up.remaining;
    ok := false;
    if initial != [] {
      total := total + |initial|;
      if total > MAX_RESP {
        return;
      }
      var sent := sink.Accept(initial);
      if !sent {
        return;
      }
    }
    while true
      invariant sink.Valid() && sink.Intact() && !ok
      invariant |sink.hashed| == total <= MAX_RESP && whole == sink.hashed + up.remaining
      decreases |up.remaining|
    {
      var r := up.Read(16384);
      match r {
        case Eof =>
          ok := true;
          return;
        case Aborted =>
          ok := true;
          return;
        case Failed =>
          return;
        case Data(bytes) =>
          total := total + |bytes|;
          Assoc(sink.hashed, bytes, up.remaining);
          if total > MAX_RESP {
            return;
          }
          var sent := sink.Accept(bytes);
          if !sent {
            return;
          }
      }
    }
  }
}
