/** The length-prefixed frames between the enclave and its host. */
module Frames {
  import opened Bytes

  const RESP_HEAD: byte := 0x10
  const RESP_CHUNK: byte := 0x11
  const RESP_TRAILER: byte := 0x12
  const ERR: byte := 0x1f

  datatype Frame = Frame(tag: byte, payload: seq<byte>)

  /** `write_frame`: tag, length as an unsigned 32-bit number (truncated), payload. */
  function Wire(f: Frame): (b: seq<byte>)
    ensures |b| == 5 + |f.payload|
  {
    [f.tag] + BE(|f.payload|, 4) + f.payload
  }

  datatype ReadOutcome = Read(frame: Frame, rest: seq<byte>) | Short | TooLong

  /** `read_frame` on the bytes that will ever arrive. */
  function ReadFrame(b: seq<byte>, max: nat): ReadOutcome {
    if |b| < 5 then Short
    else
      var n := FromBE(b[1..5]);
      if n > max then TooLong
      else if |b| < 5 + n then Short
      else Read(Frame(b[0], b[5..5 + n]), b[5 + n..])
  }

  /** A frame is read back exactly when its payload fits the reader's limit and 32 bits. */
  lemma FrameRoundTrip(f: Frame, rest: seq<byte>, max: nat)
    ensures ReadFrame(Wire(f) + rest, max) == Read(f, rest) <==> |f.payload| <= max && |f.payload| < 0x1_0000_0000
  {
    var b := Wire(f) + rest;
    Powers();
    FromBEOfBE(|f.payload|, 4);
    assert b[1..5] == BE(|f.payload|, 4);
    var n := FromBE(b[1..5]);
    if |f.payload| < 0x1_0000_0000 {
      assert b[5..5 + n] == f.payload && b[5 + n..] == rest;
    } else {
      assert n < |f.payload|;
    }
  }

  function Wires(fs: seq<Frame>): seq<byte> {
    if fs == [] then [] else Wire(fs[0]) + Wires(fs[1..])
  }

  /** Reads frames until the bytes run out; nothing if some frame is cut or too long. */
  function ReadAll(b: seq<byte>, max: nat): Option<seq<Frame>>
    decreases |b|
  {
    if b == [] then Some([])
    else
      var r := ReadFrame(b, max);
      if !r.Read? then None
      else
        var more := ReadAll(r.rest, max);
        if more.None? then None else Some([r.frame] + more.value)
  }

  lemma {:induction false} FramesRoundTrip(fs: seq<Frame>, max: nat)
    requires forall i :: 0 <= i < |fs| ==> |fs[i].payload| <= max && |fs[i].payload| < 0x1_0000_0000
    ensures ReadAll(Wires(fs), max) == Some(fs)
    decreases |fs|
  {
    if fs != [] {
      assert fs == [fs[0]] + fs[1..];
      FrameRoundTrip(fs[0], Wires(fs[1..]), max);
      FramesRoundTrip(fs[1..], max);
    }
  }

  lemma {:induction false} WiresConcat(a: seq<Frame>, b: seq<Frame>)
    ensures Wires(a + b) == Wires(a) + Wires(b)
    decreases |a|
  {
    if a == [] {
      assert a + b == b;
    } else {
      assert (a + b)[1..] == a[1..] + b;
      WiresConcat(a[1..], b);
    }
  }
}
