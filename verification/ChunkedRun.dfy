/**
 Chunked decoding read by read, with the unsigned 64-bit additions of the implementation. Where no addition
 wraps it agrees with the decoder of the whole stream; where one wraps it does what the machine does.
 */
module ChunkedRun {
  import opened Bytes
  import opened ChunkedCoding
  import opened SseStream
  import opened Text
  import Utf8

  /** What is buffered and the arrivals still to come. */
  datatype Filled = Filled(buf: seq<byte>, arrivals: seq<seq<byte>>)

  /** Reads until a complete line is buffered or nothing comes. */
  function FillToLine(buf: seq<byte>, arrivals: seq<seq<byte>>): (f: Filled)
    ensures f.buf + Flatten(f.arrivals) == buf + Flatten(arrivals)
    ensures IndexOf(f.buf, CRLF, 0) == -1 ==> f.arrivals == []
    decreases |arrivals|
  {
    if arrivals == [] || IndexOf(buf, CRLF, 0) != -1 then Filled(buf, arrivals)
    else
      Assoc(buf, arrivals[0], Flatten(arrivals[1..]));
      FillToLine(buf + arrivals[0], arrivals[1..])
  }

  /** Reads until `need` octets are buffered or nothing comes. */
  function FillTo(buf: seq<byte>, arrivals: seq<seq<byte>>, need: nat): (f: Filled)
    ensures f.buf + Flatten(f.arrivals) == buf + Flatten(arrivals)
    ensures |f.buf| < need ==> f.arrivals == []
    ensures |f.buf| >= |buf|
    decreases |arrivals|
  {
    if arrivals == [] || |buf| >= need then Filled(buf, arrivals)
    else
      Assoc(buf, arrivals[0], Flatten(arrivals[1..]));
      FillTo(buf + arrivals[0], arrivals[1..], need)
  }

  function Min(a: nat, b: nat): nat {
    if a <= b then a else b
  }

  /** The bytes forwarded and how it ends, for one list of arrivals. */
  function Run(buf: seq<byte>, arrivals: seq<seq<byte>>, total: nat): Decoded
    decreases |buf + Flatten(arrivals)|, 1
  {
    OneChunk(FillToLine(buf, arrivals), total)
  }

  /** One chunk, once its line is buffered, and the rest. */
  function OneChunk(f: Filled, total: nat): Decoded
    decreases |f.buf + Flatten(f.arrivals)|, 0
  {
    var p := IndexOf(f.buf, CRLF, 0);
    if p == -1 then Decoded([], Broken)
    else
      var size := ChunkSize(f.buf[..p]);
      if size.None? then Decoded([], Broken)
      else if size.value == 0 then Decoded([], Done)
      else if (total + size.value) % USIZE > MAX_RESP then Decoded([], Broken)
      else Data(f.buf[p + 2..], f.arrivals, size.value, (total + size.value) % USIZE)
  }

  /** The data of one chunk, and the rest. */
  function Data(buf: seq<byte>, arrivals: seq<seq<byte>>, size: nat, total: nat): Decoded
    decreases |buf + Flatten(arrivals)|, 2
  {
    var d := FillTo(buf, arrivals, (size + 2) % USIZE);
    var take := Min(size, |d.buf|);
    Prefixed(d.buf[..take], Run(AfterCrlf(d.buf[take..]), d.arrivals, total))
  }

  function Prefixed(forwarded: seq<byte>, r: Decoded): (d: Decoded)
    ensures forwarded <= d.body
  {
    Decoded(forwarded + r.body, r.end)
  }

  // ----- Where nothing wraps -----

  /** What the whole-stream decoder does with the line that is buffered. */
  lemma LineStep(buf: seq<byte>, rest: seq<byte>, total: nat)
    requires IndexOf(buf, CRLF, 0) != -1
    ensures var size := ChunkSize(buf[..IndexOf(buf, CRLF, 0)]);
      var r := Dechunk(buf + rest, total);
      if size.None? then r == Decoded([], Broken)
      else if size.value == 0 then r == Decoded([], Done)
      else if total + size.value >= USIZE then r == Decoded([], Overflow)
      else total + size.value > MAX_RESP ==> r == Decoded([], Broken)
  {
    hide IndexOf, ChunkSize;
    IndexOfExtend(buf, rest, CRLF, 0);
    var p := IndexOf(buf, CRLF, 0);
    assert (buf + rest)[..p] == buf[..p];
  }

  /** What it does with the data, once enough is buffered in `more`. */
  lemma DataStep(buf: seq<byte>, rest: seq<byte>, total: nat, more: seq<byte>, rest': seq<byte>)
    requires IndexOf(buf, CRLF, 0) != -1
    requires var size := ChunkSize(buf[..IndexOf(buf, CRLF, 0)]);
      size.Some? && size.value > 0 && total + size.value <= MAX_RESP && (|more| >= size.value + 2 || rest' == [])
    requires buf[IndexOf(buf, CRLF, 0) + 2..] + rest == more + rest'
    ensures var size := ChunkSize(buf[..IndexOf(buf, CRLF, 0)]).value;
      var take := Min(size, |more|);
      Dechunk(buf + rest, total) == Prefixed(more[..take], Dechunk(AfterCrlf(more[take..]) + rest', total + size))
  {
    hide IndexOf, ChunkSize, AfterCrlf;
    IndexOfExtend(buf, rest, CRLF, 0);
    var p := IndexOf(buf, CRLF, 0);
    var size := ChunkSize(buf[..p]).value;
    LineCut(buf, rest, p);
    TakeAndCrlf(more, rest', size);
  }

  lemma LineCut<T>(buf: seq<T>, rest: seq<T>, p: nat)
    requires p + 2 <= |buf|
    ensures (buf + rest)[..p] == buf[..p] && (buf + rest)[p + 2..] == buf[p + 2..] + rest
  {
  }

  /** Enough is buffered, or nothing more comes: the buffer decides like the whole stream. */
  lemma TakeAndCrlf(buf: seq<byte>, rest: seq<byte>, size: nat)
    requires |buf| >= size + 2 || rest == []
    ensures var s := buf + rest;
      var take := Min(size, |buf|);
      && take == Min(size, |s|)
      && s[..take] == buf[..take]
      && AfterCrlf(s[take..]) == AfterCrlf(buf[take..]) + rest
  {
    var s := buf + rest;
    if rest == [] {
      assert s == buf;
      var take := Min(size, |buf|);
      assert AfterCrlf(buf[take..]) + [] == AfterCrlf(buf[take..]);
    } else {
      assert s[size..] == buf[size..] + rest;
      assert s[size..][..2] == buf[size..][..2];
      assert s[size..][2..] == buf[size..][2..] + rest;
    }
  }

  lemma NoLine(buf: seq<byte>, total: nat)
    requires IndexOf(buf, CRLF, 0) == -1
    ensures Dechunk(buf + [], total) == Decoded([], Broken)
  {
    assert buf + [] == buf;
  }

  lemma SmallSum(n: nat)
    requires n < USIZE
    ensures n % USIZE == n
  {
  }

  /** For every way of reading it, a stream whose sizes never wrap is decoded as a whole. */
  lemma {:induction false} RunIsDechunk(buf: seq<byte>, arrivals: seq<seq<byte>>, total: nat)
    requires Dechunk(buf + Flatten(arrivals), total).end != Overflow
    ensures Run(buf, arrivals, total) == Dechunk(buf + Flatten(arrivals), total)
    decreases |buf + Flatten(arrivals)|, 1
  {
    hide IndexOf, Flatten, Dechunk, FillToLine, OneChunk;
    ChunkIsDechunk(FillToLine(buf, arrivals), total);
  }

  lemma {:induction false} ChunkIsDechunk(f: Filled, total: nat)
    requires IndexOf(f.buf, CRLF, 0) == -1 ==> f.arrivals == []
    requires Dechunk(f.buf + Flatten(f.arrivals), total).end != Overflow
    ensures OneChunk(f, total) == Dechunk(f.buf + Flatten(f.arrivals), total)
    decreases |f.buf + Flatten(f.arrivals)|, 0
  {
    hide IndexOf, ChunkSize, Flatten, Dechunk, Data;
    var p := IndexOf(f.buf, CRLF, 0);
    if p == -1 {
      FlattenNothing<byte>();
      NoLine(f.buf, total);
    } else {
      LineStep(f.buf, Flatten(f.arrivals), total);
      var size := ChunkSize(f.buf[..p]);
      if size.Some? && size.value != 0 {
        SmallSum(total + size.value);
        if total + size.value <= MAX_RESP {
          DataIsDechunk(f, size.value, total);
        }
      }
    }
  }

  lemma {:induction false} DataIsDechunk(f: Filled, size: nat, total: nat)
    requires IndexOf(f.buf, CRLF, 0) != -1 && ChunkSize(f.buf[..IndexOf(f.buf, CRLF, 0)]) == Some(size)
    requires 0 < size && total + size <= MAX_RESP && size + 2 < USIZE
    requires Dechunk(f.buf + Flatten(f.arrivals), total).end != Overflow
    ensures Data(f.buf[IndexOf(f.buf, CRLF, 0) + 2..], f.arrivals, size, total + size)
        == Dechunk(f.buf + Flatten(f.arrivals), total)
    decreases |f.buf + Flatten(f.arrivals)|, 0, 0
  {
    hide IndexOf, ChunkSize, Flatten, Dechunk, FillTo, Run;
    var p := IndexOf(f.buf, CRLF, 0);
    SmallSum(size + 2);
    var d := FillTo(f.buf[p + 2..], f.arrivals, size + 2);
    var take := Min(size, |d.buf|);
    FlattenNothing<byte>();
    DataStep(f.buf, Flatten(f.arrivals), total, d.buf, Flatten(d.arrivals));
    assert |f.buf[p + 2..] + Flatten(f.arrivals)| == |d.buf + Flatten(d.arrivals)|;
    RunIsDechunk(AfterCrlf(d.buf[take..]), d.arrivals, total + size);
  }

  /** So the response limit holds wherever nothing wraps. */
  lemma RunWithinLimit(buf: seq<byte>, arrivals: seq<seq<byte>>)
    requires Dechunk(buf + Flatten(arrivals), 0).end != Overflow
    ensures |Run(buf, arrivals, 0).body| <= MAX_RESP
  {
    hide Dechunk, Run;
    RunIsDechunk(buf, arrivals, 0);
    BodyWithinLimit(buf + Flatten(arrivals), 0);
  }

  // ----- While the arrivals are still coming -----

  lemma {:induction false} FlattenConcat(a: seq<seq<byte>>, b: seq<seq<byte>>)
    ensures Flatten(a + b) == Flatten(a) + Flatten(b)
    decreases |a|
  {
    if a == [] {
      assert a + b == b;
    } else {
      assert (a + b)[1..] == a[1..] + b;
      FlattenConcat(a[1..], b);
      Assoc(a[0], Flatten(a[1..]), Flatten(b));
    }
  }

  /** Having got some arrivals, filling to a line goes on from the buffer, whatever comes. */
  ghost predicate LineSame(given: seq<byte>, got: seq<seq<byte>>, buf: seq<byte>) {
    forall more :: FillToLine(given, got + more) == FillToLine(buf, more)
  }

  ghost predicate DataSame(given: seq<byte>, got: seq<seq<byte>>, buf: seq<byte>, need: nat) {
    forall more :: FillTo(given, got + more, need) == FillTo(buf, more, need)
  }

  lemma NothingGot(given: seq<byte>, need: nat)
    ensures LineSame(given, [], given) && DataSame(given, [], given, need)
  {
    hide FillToLine, FillTo;
    assert forall more: seq<seq<byte>> :: [] + more == more;
  }

  lemma LineRead(given: seq<byte>, got: seq<seq<byte>>, buf: seq<byte>, r: seq<byte>)
    requires LineSame(given, got, buf) && IndexOf(buf, CRLF, 0) == -1
    ensures LineSame(given, got + [r], buf + r)
  {
    forall more
      ensures FillToLine(given, got + [r] + more) == FillToLine(buf + r, more)
    {
      Assoc(got, [r], more);
      assert FillToLine(given, got + ([r] + more)) == FillToLine(buf, [r] + more);
      assert ([r] + more)[1..] == more;
    }
  }

  lemma DataRead(given: seq<byte>, got: seq<seq<byte>>, buf: seq<byte>, need: nat, r: seq<byte>)
    requires DataSame(given, got, buf, need) && |buf| < need
    ensures DataSame(given, got + [r], buf + r, need)
  {
    forall more
      ensures FillTo(given, got + [r] + more, need) == FillTo(buf + r, more, need)
    {
      Assoc(got, [r], more);
      assert FillTo(given, got + ([r] + more), need) == FillTo(buf, [r] + more, need);
      assert ([r] + more)[1..] == more;
    }
  }

  /**
   Where the loop stands: after `past` arrivals it has forwarded some bytes and goes on from the buffer,
   whatever more comes - nothing, if the connection has ended.
   */
  ghost predicate Going(start: seq<byte>, past: seq<seq<byte>>, forwarded: seq<byte>, buf: seq<byte>, total: nat,
                        ended: bool) {
    forall more :: (ended ==> more == []) ==> Run(start, past + more, 0) == Prefixed(forwarded, Run(buf, more, total))
  }

  /** The same inside the data of a chunk. */
  ghost predicate InData(start: seq<byte>, past: seq<seq<byte>>, forwarded: seq<byte>, buf: seq<byte>, size: nat,
                         total: nat, ended: bool) {
    forall more :: (ended ==> more == []) ==>
        Run(start, past + more, 0) == Prefixed(forwarded, Data(buf, more, size, total))
  }

  /** The outcome is settled, whatever more comes. */
  ghost predicate Settled(start: seq<byte>, past: seq<seq<byte>>, forwarded: seq<byte>, end: End, ended: bool) {
    forall more :: (ended ==> more == []) ==> Run(start, past + more, 0) == Decoded(forwarded, end)
  }

  /** At least what was forwarded so far is what a complete run forwards first. */
  ghost predicate Behind(start: seq<byte>, past: seq<seq<byte>>, forwarded: seq<byte>, ended: bool) {
    forall more :: (ended ==> more == []) ==> forwarded <= Run(start, past + more, 0).body
  }

  lemma Begins(start: seq<byte>, ended: bool)
    ensures Going(start, [], [], start, 0, ended)
  {
    hide Run;
    forall more
      ensures Run(start, [] + more, 0) == Prefixed([], Run(start, more, 0))
    {
      assert [] + more == more;
      var r := Run(start, more, 0);
      assert [] + r.body == r.body;
    }
  }

  lemma GoingIsBehind(start: seq<byte>, past: seq<seq<byte>>, forwarded: seq<byte>, buf: seq<byte>, total: nat,
                      ended: bool)
    requires Going(start, past, forwarded, buf, total, ended)
    ensures Behind(start, past, forwarded, ended)
  {
    hide Run;
  }

  lemma InDataIsBehind(start: seq<byte>, past: seq<seq<byte>>, forwarded: seq<byte>, buf: seq<byte>, size: nat,
                       total: nat, ended: bool,
                       got: seq<seq<byte>>, now: bool)
    requires InData(start, past, forwarded, buf, size, total, ended) && (ended ==> got == [] && now)
    ensures Behind(start, past + got, forwarded, now)
  {
    hide Run, Data;
    forall more | now ==> more == []
      ensures forwarded <= Run(start, past + got + more, 0).body
    {
      Assoc(past, got, more);
      assert ended ==> got + more == [];
    }
  }

  /** A line was read. */
  lemma AfterLine(start: seq<byte>, past: seq<seq<byte>>, forwarded: seq<byte>, given: seq<byte>, total: nat,
                  ended: bool,
                  got: seq<seq<byte>>, buf: seq<byte>, now: bool)
    requires Going(start, past, forwarded, given, total, ended) && LineSame(given, got, buf) && (ended ==> got == [] && now)
    ensures Going(start, past + got, forwarded, buf, total, now)
  {
    hide FillToLine, OneChunk;
    forall more | now ==> more == []
      ensures Run(start, past + got + more, 0) == Prefixed(forwarded, Run(buf, more, total))
    {
      Assoc(past, got, more);
      assert ended ==> got + more == [];
      assert FillToLine(given, got + more) == FillToLine(buf, more);
    }
  }

  lemma NoMoreLines(start: seq<byte>, past: seq<seq<byte>>, forwarded: seq<byte>, buf: seq<byte>, total: nat)
    requires Going(start, past, forwarded, buf, total, true) && IndexOf(buf, CRLF, 0) == -1
    ensures Settled(start, past, forwarded, Broken, true)
  {
    hide IndexOf;
    assert Run(buf, [], total) == Decoded([], Broken);
    assert forwarded + [] == forwarded;
  }

  /** What the buffered line decides. */
  lemma LineDecides(start: seq<byte>, past: seq<seq<byte>>, forwarded: seq<byte>, buf: seq<byte>, total: nat,
                    ended: bool)
    requires Going(start, past, forwarded, buf, total, ended) && IndexOf(buf, CRLF, 0) != -1
    ensures var p := IndexOf(buf, CRLF, 0);
      var size := ChunkSize(buf[..p]);
      if size.None? then Settled(start, past, forwarded, Broken, ended)
      else if size.value == 0 then Settled(start, past, forwarded, Done, ended)
      else if (total + size.value) % USIZE > MAX_RESP then Settled(start, past, forwarded, Broken, ended)
      else InData(start, past, forwarded, buf[p + 2..], size.value, (total + size.value) % USIZE, ended)
  {
    hide ChunkSize, Data, IndexOf, Run;
    assert forwarded + [] == forwarded;
    forall more | ended ==> more == []
      ensures var p := IndexOf(buf, CRLF, 0);
        var size := ChunkSize(buf[..p]);
        var r := Run(start, past + more, 0);
        if size.None? then r == Decoded(forwarded, Broken)
        else if size.value == 0 then r == Decoded(forwarded, Done)
        else if (total + size.value) % USIZE > MAX_RESP then r == Decoded(forwarded, Broken)
        else r == Prefixed(forwarded, Data(buf[p + 2..], more, size.value, (total + size.value) % USIZE))
    {
      RunOfLine(buf, more, total);
    }
  }

  lemma RunOfLine(buf: seq<byte>, more: seq<seq<byte>>, total: nat)
    requires IndexOf(buf, CRLF, 0) != -1
    ensures Run(buf, more, total) ==
      (var p := IndexOf(buf, CRLF, 0);
       var size := ChunkSize(buf[..p]);
       if size.None? then Decoded([], Broken)
       else if size.value == 0 then Decoded([], Done)
       else if (total + size.value) % USIZE > MAX_RESP then Decoded([], Broken)
       else Data(buf[p + 2..], more, size.value, (total + size.value) % USIZE))
  {
    hide ChunkSize, Data, IndexOf;
    assert FillToLine(buf, more) == Filled(buf, more);
  }

  /** The data was read and its piece is forwarded. */
  lemma AfterData(start: seq<byte>, past: seq<seq<byte>>, forwarded: seq<byte>, given: seq<byte>, size: nat,
                  total: nat, ended: bool,
                  got: seq<seq<byte>>, buf: seq<byte>, now: bool)
    requires InData(start, past, forwarded, given, size, total, ended) && DataSame(given, got, buf, (size + 2) % USIZE)
    requires (|buf| >= (size + 2) % USIZE || now) && (ended ==> got == [] && now)
    ensures var take := Min(size, |buf|);
      Going(start, past + got, forwarded + buf[..take], AfterCrlf(buf[take..]), total, now)
  {
    hide Run, AfterCrlf;
    var take := Min(size, |buf|);
    forall more | now ==> more == []
      ensures Run(start, past + got + more, 0)
          == Prefixed(forwarded + buf[..take], Run(AfterCrlf(buf[take..]), more, total))
    {
      Assoc(past, got, more);
      assert ended ==> got + more == [];
      assert FillTo(given, got + more, (size + 2) % USIZE) == Filled(buf, more);
      Assoc(forwarded, buf[..take], Run(AfterCrlf(buf[take..]), more, total).body);
    }
  }

  /** What was settled or left behind, said of the arrivals alone and of the whole stream. */
  lemma Concluded(start: seq<byte>, past: seq<seq<byte>>, rest: seq<byte>, forwarded: seq<byte>)
    requires Behind(start, past, forwarded, rest == [])
    ensures forwarded <= Run(start, past, 0).body
    ensures forall end :: Settled(start, past, forwarded, end, rest == []) ==>
        Run(start, past, 0) == Decoded(forwarded, end)
    ensures var r := Dechunk(start + (Flatten(past) + rest), 0);
      r.end != Overflow ==>
        && |forwarded| <= MAX_RESP && forwarded <= r.body
        && (forall end :: Settled(start, past, forwarded, end, rest == []) ==> r == Decoded(forwarded, end))
  {
    hide Run, Dechunk, Flatten;
    assert past + [] == past;
    var more := if rest == [] then [] else [rest];
    FlattenConcat(past, more);
    FlattenOne(rest);
    FlattenNothing<byte>();
    if Dechunk(start + (Flatten(past) + rest), 0).end != Overflow {
      RunIsDechunk(start, past + more, 0);
      BodyWithinLimit(start + (Flatten(past) + rest), 0);
    }
  }

  lemma FlattenOne(p: seq<byte>)
    ensures Flatten([p]) == p
  {
    assert [p][1..] == [] && p + [] == p;
  }

  // ----- Where an addition wraps -----

  /** A one-octet chunk, then a chunk line with the largest size there is, then anything. */
  function WrapPiece(x: byte, filler: seq<byte>): seq<byte> {
    Line(1, []) + CRLF + ([x] + CRLF + WrapLine(filler))
  }

  function WrapLine(filler: seq<byte>): seq<byte> {
    Line(USIZE - 1, []) + CRLF + filler
  }

  lemma LineBuffered(line: seq<byte>, rest: seq<byte>, arrivals: seq<seq<byte>>)
    requires CR !in line
    ensures var b := line + CRLF + rest;
      && FillToLine(b, arrivals) == Filled(b, arrivals)
      && IndexOf(b, CRLF, 0) == |line| && b[..|line|] == line && b[|line| + 2..] == rest
  {
    LineEnd(line, rest);
  }

  lemma FirstArrival(b: seq<byte>, more: seq<seq<byte>>)
    ensures FillToLine([], [b] + more) == FillToLine(b, more)
  {
    assert [] + b == b && ([b] + more)[1..] == more;
  }

  lemma OneOctetChunk(x: byte, rest: seq<byte>, more: seq<seq<byte>>)
    ensures OneChunk(Filled(Line(1, []) + CRLF + ([x] + CRLF + rest), more), 0) == Prefixed([x], Run(rest, more, 1))
  {
    hide Run, ChunkSize, Line, IndexOf;
    var line, tail := Line(1, []), [x] + CRLF + rest;
    SizeOfLine(1, []);
    NoCrInLine(1, []);
    LineBuffered(line, tail, more);
    SmallSum(1);
    SmallSum(3);
    assert FillTo(tail, more, 3) == Filled(tail, more);
    assert tail[..1] == [x] && tail[1..] == CRLF + rest;
    assert (CRLF + rest)[..2] == CRLF && (CRLF + rest)[2..] == rest;
  }

  lemma HugeChunk(filler: seq<byte>, more: seq<seq<byte>>)
    requires 0 < |filler| < USIZE
    ensures Run(WrapLine(filler), more, 1) == Prefixed(filler, Run([], more, 0))
  {
    hide ChunkSize, Line, IndexOf;
    var line := Line(USIZE - 1, []);
    SizeOfLine(USIZE - 1, []);
    NoCrInLine(USIZE - 1, []);
    LineBuffered(line, filler, more);
    assert (1 + (USIZE - 1)) % USIZE == 0 && (USIZE - 1 + 2) % USIZE == 1;
    assert FillTo(filler, more, 1) == Filled(filler, more);
    assert filler[..|filler|] == filler && AfterCrlf(filler[|filler|..]) == [];
    RunIsData(line, filler, more);
  }

  lemma RunIsData(line: seq<byte>, filler: seq<byte>, more: seq<seq<byte>>)
    requires CR !in line && ChunkSize(line) == Some(USIZE - 1)
    ensures Run(line + CRLF + filler, more, 1) == Data(filler, more, USIZE - 1, 0)
  {
    hide ChunkSize, IndexOf, Data, FillToLine;
    LineBuffered(line, filler, more);
    assert (1 + (USIZE - 1)) % USIZE == 0;
  }

  /** Everything that is buffered behind such a line is forwarded, and the count starts again at zero. */
  lemma WrappingPiece(x: byte, filler: seq<byte>, more: seq<seq<byte>>)
    requires 0 < |filler| < USIZE
    ensures Run([], [WrapPiece(x, filler)] + more, 0) == Prefixed([x] + filler, Run([], more, 0))
  {
    hide OneChunk, Line, FillToLine, WrapLine;
    var r := Run([], more, 0);
    FirstArrival(WrapPiece(x, filler), more);
    NoCrInLine(1, []);
    LineBuffered(Line(1, []), [x] + CRLF + WrapLine(filler), more);
    OneOctetChunk(x, WrapLine(filler), more);
    HugeChunk(filler, more);
    assert [x] + (filler + r.body) == [x] + filler + r.body;
  }

  function Copies(piece: seq<byte>, n: nat): seq<seq<byte>> {
    if n == 0 then [] else [piece] + Copies(piece, n - 1)
  }

  /** Repeating the piece forwards without any limit. */
  lemma {:induction false} LimitBypassed(x: byte, filler: seq<byte>, n: nat)
    requires 0 < |filler| < USIZE
    ensures |Run([], Copies(WrapPiece(x, filler), n), 0).body| == n * (1 + |filler|)
    ensures n >= MAX_RESP ==> |Run([], Copies(WrapPiece(x, filler), n), 0).body| > MAX_RESP
    decreases n
  {
    hide Run, WrapPiece;
    if n == 0 {
      EmptyRun();
    } else {
      WrappingPiece(x, filler, Copies(WrapPiece(x, filler), n - 1));
      LimitBypassed(x, filler, n - 1);
    }
  }

  lemma EmptyRun()
    ensures Run([], [], 0) == Decoded([], Broken)
  {
  }

  /** The whole-stream decoder, one chunk at a time. */
  lemma Unfolded(s: seq<byte>, total: nat)
    requires IndexOf(s, CRLF, 0) != -1
    ensures var p := IndexOf(s, CRLF, 0);
      var size, rest, r := ChunkSize(s[..p]), s[p + 2..], Dechunk(s, total);
      if size.None? then r == Decoded([], Broken)
      else if size.value == 0 then r == Decoded([], Done)
      else if total + size.value >= USIZE then r == Decoded([], Overflow)
      else if total + size.value > MAX_RESP then r == Decoded([], Broken)
      else
        var take := Min(size.value, |rest|);
        r == Prefixed(rest[..take], Dechunk(AfterCrlf(rest[take..]), total + size.value))
  {
    hide ChunkSize, IndexOf, AfterCrlf;
  }

  /** Once the count wraps, all that is buffered is forwarded. */
  lemma {:induction false} WrapGoesPast(s: seq<byte>, more: seq<byte>, total: nat)
    requires Dechunk(s, total).end == Overflow && total <= MAX_RESP && |more| > MAX_RESP
    ensures |Run(s + more, [], total).body| > MAX_RESP
    decreases |s|
  {
    ShortIsBroken(s, total);
    hide ChunkSize, IndexOf, AfterCrlf, Run, Dechunk;
    var p := IndexOf(s, CRLF, 0);
    Unfolded(s, total);
    IndexOfExtend(s, more, CRLF, 0);
    LineCut(s, more, p);
    RunOfLine(s + more, [], total);
    SizeFits(s[..p]);
    var size := ChunkSize(s[..p]).value;
    var rest := s[p + 2..];
    if total + size >= USIZE {
      WrapForwards(rest + more, size, total);
    } else {
      var left := rest[Min(size, |rest|)..];
      SmallSum(total + size);
      ShortIsBroken(AfterCrlf(left), total + size);
      WrapGoesPast(AfterCrlf(left), more, total + size);
      NotAllTaken(rest, size);
      FurtherGoesPast(rest, more, size, total + size);
    }
  }

  lemma FurtherGoesPast(rest: seq<byte>, more: seq<byte>, size: nat, total: nat)
    requires size <= |rest| && |AfterCrlf(rest[size..])| >= 2
    requires |Run(AfterCrlf(rest[size..]) + more, [], total).body| > MAX_RESP
    ensures |Data(rest + more, [], size, total).body| > MAX_RESP
  {
    hide Run, AfterCrlf, Data;
    AfterCrlfStays(rest[size..], more);
    assert (rest + more)[size..] == rest[size..] + more;
    DataOf(rest + more, size, total);
  }

  lemma NotAllTaken(rest: seq<byte>, size: nat)
    requires |AfterCrlf(rest[Min(size, |rest|)..])| >= 2
    ensures size <= |rest|
  {
  }

  lemma SizeFits(line: seq<byte>)
    ensures ChunkSize(line).Some? ==> ChunkSize(line).value < USIZE
  {
    hide HexValue, Trim, Utf8.Lossy, Before;
  }

  lemma WrapForwards(buf: seq<byte>, size: nat, total: nat)
    requires total <= MAX_RESP && size < USIZE && total + size >= USIZE && |buf| > MAX_RESP
    ensures (total + size) % USIZE <= MAX_RESP
    ensures |Data(buf, [], size, (total + size) % USIZE).body| > MAX_RESP
  {
    hide Run;
    assert (total + size) % USIZE == total + size - USIZE;
    DataOf(buf, size, total + size - USIZE);
  }

  lemma DataOf(buf: seq<byte>, size: nat, total: nat)
    ensures var take := Min(size, |buf|);
      Data(buf, [], size, total) == Prefixed(buf[..take], Run(AfterCrlf(buf[take..]), [], total))
  {
    hide Run, AfterCrlf;
  }

  lemma ShortIsBroken(s: seq<byte>, total: nat)
    ensures Dechunk(s, total).end == Overflow ==> |s| >= 2 && IndexOf(s, CRLF, 0) != -1
  {
  }

  lemma AfterCrlfStays(left: seq<byte>, more: seq<byte>)
    requires |AfterCrlf(left)| >= 2
    ensures AfterCrlf(left + more) == AfterCrlf(left) + more
  {
    assert (left + more)[..2] == left[..2];
    assert (left + more)[2..] == left[2..] + more;
  }

  /** Octets that form no line. */
  function Filler(n: nat): seq<byte> {
    seq(n, _ => 0x7a)
  }

  lemma FillerEndsNoLine(s: seq<byte>, n: nat)
    requires IndexOf(s, CRLF, 0) == -1
    ensures IndexOf(s + Filler(n), CRLF, 0) == -1
  {
    var t := s + Filler(n);
    forall q: nat
      ensures !At(t, CRLF, q)
    {
      if q + 2 <= |s| {
        assert t[q..q + 2] == s[q..q + 2];
        assert !At(s, CRLF, q);
      } else if q + 2 <= |t| {
        assert t[q..q + 2][1] == t[q + 1] == 0x7a;
      }
    }
  }

  lemma FillerAfterCrlf(left: seq<byte>, n: nat)
    ensures AfterCrlf(left + Filler(n)) == AfterCrlf(left) + Filler(n)
  {
    var t := left + Filler(n);
    if |left| >= 2 {
      assert t[..2] == left[..2] && t[2..] == left[2..] + Filler(n);
    } else if |t| >= 2 {
      assert t[..2][1] == t[1] == 0x7a;
    }
  }

  lemma FillerIsBroken(n: nat, total: nat)
    ensures Dechunk(Filler(n), total) == Decoded([], Broken)
  {
    NoLineEnd(Filler(n));
  }

  /** They never make the count wrap. */
  lemma {:induction false} FillerIsHarmless(s: seq<byte>, n: nat, total: nat)
    requires Dechunk(s, total).end != Overflow
    ensures Dechunk(s + Filler(n), total).end != Overflow
    decreases |s|
  {
    hide ChunkSize, IndexOf, AfterCrlf, Dechunk, Filler;
    var z := Filler(n);
    var p := IndexOf(s, CRLF, 0);
    if p == -1 {
      FillerEndsNoLine(s, n);
      NoLine(s + z, total);
      assert s + z + [] == s + z;
    } else {
      Unfolded(s, total);
      IndexOfExtend(s, z, CRLF, 0);
      LineCut(s, z, p);
      Unfolded(s + z, total);
      var size := ChunkSize(s[..p]);
      if size.Some? && size.value != 0 && total + size.value <= MAX_RESP {
        var rest := s[p + 2..];
        if size.value <= |rest| {
          var left := rest[size.value..];
          FillerIsHarmless(AfterCrlf(left), n, total + size.value);
          FillerBehind(rest, n, size.value);
        } else {
          FillerTaken(rest, n, size.value, total + size.value);
        }
      }
    }
  }

  lemma FillerBehind(rest: seq<byte>, n: nat, size: nat)
    requires size <= |rest|
    ensures AfterCrlf((rest + Filler(n))[size..]) == AfterCrlf(rest[size..]) + Filler(n)
  {
    hide AfterCrlf, Filler;
    assert (rest + Filler(n))[size..] == rest[size..] + Filler(n);
    FillerAfterCrlf(rest[size..], n);
  }

  lemma FillerTaken(rest: seq<byte>, n: nat, size: nat, total: nat)
    requires size > |rest|
    ensures var t := rest + Filler(n); Dechunk(AfterCrlf(t[Min(size, |t|)..]), total) == Decoded([], Broken)
  {
    var t := rest + Filler(n);
    var k := Min(size - |rest|, n);
    assert Min(size, |t|) == |rest| + k && t[|rest| + k..] == Filler(n - k);
    hide Dechunk, Filler;
    FillerAfterCrlf([], n - k);
    assert [] + Filler(n - k) == Filler(n - k);
    EmptyAfterCrlf();
    FillerIsBroken(n - k, total);
  }

  lemma EmptyAfterCrlf()
    ensures AfterCrlf([]) == []
  {
  }

  /**
   The count wraps in a beginning of a stream exactly when every long enough continuation of it goes past the limit.
   */
  lemma WrapsIff(s: seq<byte>)
    ensures Dechunk(s, 0).end == Overflow
        <==> forall more: seq<byte> :: |more| > MAX_RESP ==> |Run(s + more, [], 0).body| > MAX_RESP
  {
    hide Dechunk, Run, Filler;
    if Dechunk(s, 0).end == Overflow {
      forall more: seq<byte> | |more| > MAX_RESP
        ensures |Run(s + more, [], 0).body| > MAX_RESP
      {
        WrapGoesPast(s, more, 0);
      }
    } else {
      var z := Filler(MAX_RESP + 1);
      FillerIsLong(MAX_RESP + 1);
      FillerIsHarmless(s, MAX_RESP + 1, 0);
      FlattenNothing<byte>();
      assert s + z + [] == s + z;
      RunWithinLimit(s + z, []);
      assert |Run(s + z, [], 0).body| <= MAX_RESP;
    }
  }

  lemma FillerIsLong(n: nat)
    ensures |Filler(n)| == n
  {
  }

  /**
   The limit holds for a beginning of a stream, however it goes on and however it arrives, exactly when the count
   never wraps.
   */
  lemma LimitHoldsIff(s: seq<byte>)
    ensures (forall start: seq<byte>, arrivals: seq<seq<byte>> ::
               s <= start + Flatten(arrivals) ==> |Run(start, arrivals, 0).body| <= MAX_RESP)
       <==> (forall rest: seq<byte> :: Dechunk(s + rest, 0).end != Overflow)
  {
    hide Dechunk, Run, Flatten;
    if forall rest: seq<byte> :: Dechunk(s + rest, 0).end != Overflow {
      forall start: seq<byte>, arrivals: seq<seq<byte>> | s <= start + Flatten(arrivals)
        ensures |Run(start, arrivals, 0).body| <= MAX_RESP
      {
        var whole := start + Flatten(arrivals);
        assert whole == s + whole[|s|..];
        RunWithinLimit(start, arrivals);
      }
    } else {
      var rest: seq<byte> :| Dechunk(s + rest, 0).end == Overflow;
      var z := Filler(MAX_RESP + 1);
      WrapsIff(s + rest);
      FlattenNothing<byte>();
      Assoc(s, rest, z);
      assert s <= s + rest + z + Flatten([]);
    }
  }

  /** The whole-stream decoder marks this input, after the octet of the first chunk. */
  lemma WrapIsMarked(x: byte, filler: seq<byte>)
    ensures Dechunk(WrapPiece(x, filler), 0) == Decoded([x], Overflow)
  {
    hide ChunkSize, Line, IndexOf, Dechunk;
    var c := ChunkedCoding.Chunk([x], []);
    DechunkOne(c, WrapLine(filler), 0);
    assert WrapPiece(x, filler) == Line(1, []) + CRLF + c.data + CRLF + WrapLine(filler);
    SizeOfLine(USIZE - 1, []);
    NoCrInLine(USIZE - 1, []);
    LineEnd(Line(USIZE - 1, []), filler);
    var s := WrapLine(filler);
    assert s[..|Line(USIZE - 1, [])|] == Line(USIZE - 1, []);
    LineStep(s, [], 1);
    assert s + [] == s;
  }

  /** Then the amount forwarded depends on how the same bytes arrive. */
  lemma CutsMatter(x: byte, a: byte, b: byte)
    ensures Flatten([WrapPiece(x, [a, b])]) == Flatten([WrapPiece(x, [a]), [b]])
    ensures Run([], [WrapPiece(x, [a, b])], 0).body == [x, a, b]
    ensures Run([], [WrapPiece(x, [a]), [b]], 0).body == [x, a]
  {
    hide Run, Line;
    assert WrapPiece(x, [a, b]) == WrapPiece(x, [a]) + [b];
    FlattenTwo(WrapPiece(x, [a]), [b]);
    EmptyRun();
    WrappingPiece(x, [a, b], []);
    WrappingPiece(x, [a], [[b]]);
    LastOctet(b);
    assert [WrapPiece(x, [a, b])] + [] == [WrapPiece(x, [a, b])];
    assert [WrapPiece(x, [a])] + [[b]] == [WrapPiece(x, [a]), [b]];
  }

  lemma FlattenTwo(p: seq<byte>, q: seq<byte>)
    ensures Flatten([p + q]) == Flatten([p, q])
  {
    assert [p + q][1..] == [] && [p, q][1..] == [q] && [q][1..] == [];
    assert p + (q + []) == p + q + [];
  }

  lemma LastOctet(b: byte)
    ensures Run([], [[b]], 0) == Decoded([], Broken)
  {
    FirstArrival([b], []);
    assert [[b]] + [] == [[b]];
  }
}
