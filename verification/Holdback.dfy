/**
 The streaming side of the verifying proxy: it forwards a response as it arrives but keeps back the last
 `holdback` octets, so that at the end it can cut off the proof event before the client sees any of it.
 */
module Holdback {
  import opened Bytes
  import opened Json
  import opened ProofEvent
  import opened Stripping
  import Utf8

  /** How much of n received octets is forwarded while the stream is open. */
  function Ahead(n: nat, holdback: nat): nat {
    if n > holdback then n - holdback else 0
  }

  /** The body the proxy sees at the end: it re-reads what it received as text. */
  function FinalParse(stream: seq<byte>, o: Oracle): Parsed {
    ParsedEvent(Utf8.Encode(Utf8.Lossy(stream)), o)
  }

  /** Everything the client has received when the stream has ended. */
  function Output(stream: seq<byte>, holdback: nat, o: Oracle): seq<byte> {
    var body := FinalParse(stream, o).body;
    var forwarded := Ahead(|stream|, holdback);
    stream[..forwarded] + if |body| > forwarded then body[forwarded..] else []
  }

  class Forwarder {
    const holdback: nat
    var acc: seq<byte>
    var forwarded: nat
    /** What has been written to the client. */
    var written: seq<byte>

    ghost predicate Valid()
      reads this
    {
      forwarded == Ahead(|acc|, holdback) && written == acc[..forwarded]
    }

    constructor (holdback: nat)
      ensures Valid() && this.holdback == holdback && acc == []
    {
      this.holdback := holdback;
      acc, forwarded, written := [], 0, [];
    }

    /** The `data` callback. */
    method OnData(chunk: seq<byte>)
      requires Valid()
      modifies this
      ensures Valid() && acc == old(acc) + chunk
    {
      acc := acc + chunk;
      var safeEnd: int := |acc| - holdback;
      if safeEnd > forwarded {
        written := written + acc[forwarded..safeEnd];
        forwarded := safeEnd;
      }
    }

    /** The `end` callback. */
    method OnEnd(o: Oracle) returns (parsed: Parsed)
      requires Valid()
      modifies this`written
      ensures parsed == FinalParse(acc, o) && written == Output(acc, holdback, o)
    {
      ghost var event;
      parsed, event := ParseTeeProofEvent(Utf8.Encode(Utf8.Lossy(acc)), o);
      if |parsed.body| > forwarded {
        written := written + parsed.body[forwarded..];
      }
    }
  }

  function Joined(chunks: seq<seq<byte>>): seq<byte> {
    if chunks == [] then [] else Joined(chunks[..|chunks| - 1]) + chunks[|chunks| - 1]
  }

  /**
   A whole response in arbitrary pieces. `shown[i]` is what the client has after i pieces; the final
   output depends on the joined stream only.
   */
  method Forward(chunks: seq<seq<byte>>, holdback: nat, o: Oracle) returns (shown: seq<seq<byte>>, written: seq<byte>)
    ensures |shown| == |chunks| + 1
    ensures forall i :: 0 <= i <= |chunks| ==>
              var seen := Joined(chunks[..i]); shown[i] == seen[..Ahead(|seen|, holdback)]
    ensures written == Output(Joined(chunks), holdback, o)
  {
    var f := new Forwarder(holdback);
    shown := [f.written];
    for i := 0 to |chunks|
      invariant f.Valid() && f.holdback == holdback && f.acc == Joined(chunks[..i]) && |shown| == i + 1
      invariant forall j :: 0 <= j <= i ==> var seen := Joined(chunks[..j]); shown[j] == seen[..Ahead(|seen|, holdback)]
    {
      f.OnData(chunks[i]);
      assert chunks[..i + 1][..i] == chunks[..i];
      shown := shown + [f.written];
    }
    assert chunks[..|chunks|] == chunks;
    var parsed := f.OnEnd(o);
    written := f.written;
  }

  // ----- What the client gets -----

  lemma {:induction false} JoinedPrefix(chunks: seq<seq<byte>>, i: nat)
    requires i <= |chunks|
    ensures Joined(chunks[..i]) <= Joined(chunks)
    decreases |chunks|
  {
    if i == |chunks| {
      assert chunks[..i] == chunks;
    } else {
      var front := chunks[..|chunks| - 1];
      assert front[..i] == chunks[..i];
      JoinedPrefix(front, i);
    }
  }

  /** A stream that is valid UTF-8 is parsed as received. */
  lemma TextIsUntouched(stream: seq<byte>)
    ensures Utf8.Encode(Utf8.Lossy(stream)) == stream <==> Utf8.Strict(stream).Some?
  {
    Utf8.StrictIsInverse(stream);
    Utf8.LossyOfEncode(Utf8.Lossy(stream));
  }

  /**
   A stream without a proof comes out whole under every holdback exactly when it is valid UTF-8. (The last
   octets of an invalid one are replaced by the re-encoded text.)
   */
  lemma WithoutProofWhole(stream: seq<byte>, o: Oracle)
    requires FinalParse(stream, o).proof.None?
    ensures (forall holdback: nat :: Output(stream, holdback, o) == stream) <==> Utf8.Strict(stream).Some?
  {
    hide Utf8.Encode, Utf8.Strict, Utf8.Lossy, ParsedEvent;
    TextIsUntouched(stream);
    var seen := Utf8.Encode(Utf8.Lossy(stream));
    var event := ParseIsConservative(seen, o);
    assert FinalParse(stream, o).body == seen;
    if seen == stream {
      forall holdback: nat
        ensures Output(stream, holdback, o) == stream
      {
        assert stream == stream[..Ahead(|stream|, holdback)] + stream[Ahead(|stream|, holdback)..];
      }
    } else {
      assert Output(stream, |stream|, o) == seen;
    }
  }

  /** A valid UTF-8 stream with a proof and no keepalives removed is its body and the proof event. */
  lemma ProofIsASuffix(stream: seq<byte>, o: Oracle) returns (event: seq<byte>)
    requires Utf8.Strict(stream).Some? && FinalParse(stream, o).removed == NOTHING
    ensures stream == FinalParse(stream, o).body + event
    ensures FinalParse(stream, o).proof.None? ==> event == []
  {
    hide Utf8.Encode, Utf8.Strict, Utf8.Lossy, ParsedEvent, MatchEvent, Marker, Expected, MARKER, Repeat, At;
    TextIsUntouched(stream);
    event := ParseIsConservative(stream, o);
    var body := FinalParse(stream, o).body;
    RepeatNothing(body);
    if FinalParse(stream, o).proof.None? {
      event := [];
      assert body + event == body;
    }
  }

  /**
   Under those conditions the client gets exactly the body if and only if the proof event fits in the
   holdback, and then no more than the body is ever written before the end either.
   */
  lemma ExactIffEventFits(chunks: seq<seq<byte>>, holdback: nat, o: Oracle)
    requires var stream := Joined(chunks); Utf8.Strict(stream).Some? && FinalParse(stream, o).removed == NOTHING
    ensures (var stream := Joined(chunks);
             var body := FinalParse(stream, o).body;
             && (Output(stream, holdback, o) == body <==> |stream| - |body| <= holdback)
             && (Output(stream, holdback, o) == body ==> forall i :: 0 <= i <= |chunks| ==>
                   var seen := Joined(chunks[..i]); seen[..Ahead(|seen|, holdback)] <= body))
  {
    hide Utf8.Encode, Utf8.Strict, Utf8.Lossy, ParsedEvent, Joined;
    var stream := Joined(chunks);
    var body := FinalParse(stream, o).body;
    var event := ProofIsASuffix(stream, o);
    ExactIffPrefix(stream, holdback, o);
    PrefixIffFits(stream, body, event, holdback);
    if |event| <= holdback {
      forall i | 0 <= i <= |chunks|
        ensures var seen := Joined(chunks[..i]); seen[..Ahead(|seen|, holdback)] <= body
      {
        JoinedPrefix(chunks, i);
        ShownIsBody(Joined(chunks[..i]), stream, body, event, holdback);
      }
    }
  }

  /** The client gets exactly the body if and only if what was forwarded before the end is a beginning of it. */
  lemma ExactIffPrefix(stream: seq<byte>, holdback: nat, o: Oracle)
    ensures Output(stream, holdback, o) == FinalParse(stream, o).body
            <==> stream[..Ahead(|stream|, holdback)] <= FinalParse(stream, o).body
  {
    hide FinalParse;
    var n, body := Ahead(|stream|, holdback), FinalParse(stream, o).body;
    if stream[..n] <= body {
      assert stream[..n] + body[n..] == body;
      assert body[|body|..] == [];
    } else {
      assert stream[..n] <= Output(stream, holdback, o);
    }
  }

  lemma PrefixIffFits(stream: seq<byte>, body: seq<byte>, event: seq<byte>, holdback: nat)
    requires stream == body + event
    ensures stream[..Ahead(|stream|, holdback)] <= body <==> |event| <= holdback
  {
  }

  lemma ShownIsBody(seen: seq<byte>, stream: seq<byte>, body: seq<byte>, event: seq<byte>, holdback: nat)
    requires seen <= stream && stream == body + event && |event| <= holdback
    ensures seen[..Ahead(|seen|, holdback)] <= body
  {
  }

  /** With keepalives removed, a valid UTF-8 stream is the markers, the body and the event. */
  lemma StreamWithKeepalives(stream: seq<byte>, o: Oracle) returns (event: seq<byte>)
    requires Utf8.Strict(stream).Some? && FinalParse(stream, o).removed.count > 0
    ensures var p := FinalParse(stream, o); stream == Repeat(MARKER, p.removed.count) + p.body + event
  {
    hide Utf8.Encode, Utf8.Strict, Utf8.Lossy, ParsedEvent, MARKER, Repeat, MatchEvent, Marker, Expected, At;
    TextIsUntouched(stream);
    event := ParseIsConservative(stream, o);
  }

  /**
   Keepalives and holdback do not go together. Once the markers were forwarded, the client gets them, then the
   body's first octets, and then the body from the position where forwarding stopped: as many octets of the
   body as the markers are long are lost in the middle.
   */
  lemma KeepalivesShiftTheBody(stream: seq<byte>, holdback: nat, o: Oracle)
    requires Utf8.Strict(stream).Some? && FinalParse(stream, o).removed.count > 0
    requires FinalParse(stream, o).removed.count * |MARKER| <= Ahead(|stream|, holdback) <= |FinalParse(stream, o).body|
    ensures var p, n := FinalParse(stream, o), Ahead(|stream|, holdback);
      var gap := p.removed.count * |MARKER|;
      && Output(stream, holdback, o) == Repeat(MARKER, p.removed.count) + p.body[..n - gap] + p.body[n..]
      && |Output(stream, holdback, o)| == |p.body|
  {
    hide Utf8.Encode, Utf8.Strict, Utf8.Lossy, FinalParse, MARKER, Repeat;
    var event := StreamWithKeepalives(stream, o);
    var p, n := FinalParse(stream, o), Ahead(|stream|, holdback);
    CutAfterMarkers(Repeat(MARKER, p.removed.count), p.body, event, n);
  }

  lemma CutAfterMarkers(markers: seq<byte>, body: seq<byte>, event: seq<byte>, n: nat)
    requires |markers| <= n <= |body|
    ensures (markers + body + event)[..n] == markers + body[..n - |markers|]
  {
  }

  /** It goes well only while the body happens to begin like the markers in front of it. */
  lemma KeepalivesSpoilUnless(stream: seq<byte>, holdback: nat, o: Oracle)
    requires Utf8.Strict(stream).Some? && FinalParse(stream, o).removed.count > 0
    ensures var p, n := FinalParse(stream, o), Ahead(|stream|, holdback);
      Output(stream, holdback, o) == p.body <==>
        n <= |p.body| && (Repeat(MARKER, p.removed.count) + p.body)[..n] == p.body[..n]
  {
    hide Utf8.Encode, Utf8.Strict, Utf8.Lossy, FinalParse, MARKER, Repeat, Output;
    var event := StreamWithKeepalives(stream, o);
    var p, n := FinalParse(stream, o), Ahead(|stream|, holdback);
    ExactIffPrefix(stream, holdback, o);
    PrefixOfStream(Repeat(MARKER, p.removed.count) + p.body, p.body, event, n);
  }

  lemma PrefixOfStream(front: seq<byte>, body: seq<byte>, event: seq<byte>, n: nat)
    requires n <= |front + event| && |body| <= |front|
    ensures (front + event)[..n] <= body <==> n <= |body| && front[..n] == body[..n]
  {
    if n <= |body| {
      assert (front + event)[..n] == front[..n];
    }
  }

  // ----- It does happen -----

  const DIGEST: string := seq(64, _ => 'a')

  /** A hash with the digest above for one body and another for everything else, and a proof that signs it. */
  function OracleFor(body: seq<byte>): Oracle {
    Oracle(_ => Some(Obj(map["response_body_sha256" := Str(DIGEST)])), b => if b == body then DIGEST else "b")
  }

  lemma DigestShape()
    ensures |DIGEST| == 64 && forall i :: 0 <= i < 64 ==> DIGEST[i] == 'a'
  {
  }

  lemma OracleSigns(body: seq<byte>, k: nat)
    ensures Expected(OracleFor(body).parseJson("{}")) == Some(OracleFor(body).sha256Hex(body))
    ensures NoCollision(OracleFor(body).sha256Hex, body, k)
  {
    hide MARKER, Repeat;
    DigestShape();
    hide DIGEST;
    assert Lower(DIGEST) == DIGEST;
    assert |"b"| == 1;
    forall j: nat | 0 < j <= k
      ensures Repeat(MARKER, j) + body != body
    {
      LongerThanBody(j, body);
    }
  }

  lemma LongerThanBody(j: nat, body: seq<byte>)
    requires j > 0
    ensures |Repeat(MARKER, j) + body| > |body|
  {
  }

  const PLAIN := Layout("\n", "\n", "\n", "")

  /**
   For every valid UTF-8 body, every positive number of keepalives and every holdback there is a stream whose
   body and proof are recovered with that many markers removed.
   */
  lemma StreamExists(body: seq<byte>, k: nat) returns (stream: seq<byte>, o: Oracle)
    requires Utf8.Strict(body).Some? && k > 0
    ensures Utf8.Strict(stream).Some? && stream == Repeat(MARKER, k) + body + Utf8.Encode(EventText("{}", PLAIN))
    ensures FinalParse(stream, o).body == body && FinalParse(stream, o).removed == Removed(k * |MARKER|, k)
  {
    hide Utf8.Encode, Utf8.Strict, Utf8.Lossy, ParsedEvent, MARKER, Repeat, EventText, Expected, OracleFor;
    o := OracleFor(body);
    stream := Repeat(MARKER, k) + body + Utf8.Encode(EventText("{}", PLAIN));
    OracleSigns(body, k);
    OracleParses(body);
    assert "{}"[1] == '}' && ObjectLine("{}");
    CaptureParsesBack(body, k, "{}", PLAIN, o);
    MarkersAreText(k);
    ValidJoin(Repeat(MARKER, k), body);
    ValidConcat(Repeat(MARKER, k) + body, EventText("{}", PLAIN));
    TextIsUntouched(stream);
  }

  lemma OracleParses(body: seq<byte>)
    ensures OracleFor(body).parseJson("{}").Some?
  {
  }

  lemma ValidJoin(a: seq<byte>, b: seq<byte>)
    requires Utf8.Strict(a).Some? && Utf8.Strict(b).Some?
    ensures Utf8.Strict(a + b).Some?
  {
    hide Utf8.Encode, Utf8.Strict, Utf8.Lossy;
    Utf8.StrictIsInverse(b);
    ValidConcat(a, Utf8.Strict(b).value);
  }

  lemma {:induction false} AsciiIsText(b: seq<byte>)
    requires forall i :: 0 <= i < |b| ==> b[i] < 0x80
    ensures Utf8.Strict(b).Some?
    decreases |b|
  {
    if b != [] {
      AsciiIsText(b[1..]);
    }
  }

  lemma {:induction false} MarkersAreText(k: nat)
    ensures Utf8.Strict(Repeat(MARKER, k)).Some?
  {
    hide Utf8.Strict;
    if k == 0 {
      AsciiIsText([]);
    } else {
      MarkersAreText(k - 1);
      AsciiIsText(MARKER);
      ValidJoin(Repeat(MARKER, k - 1), MARKER);
    }
  }

  /** One keepalive in front of a body that does not begin with a colon, and a holdback one too small: it is spoiled. */
  lemma SpoiledStream(body: seq<byte>, holdback: nat) returns (stream: seq<byte>, o: Oracle)
    requires Utf8.Strict(body).Some? && body != [] && body[0] != 0x3a
    requires holdback < |MARKER| + |body| + |Utf8.Encode(EventText("{}", PLAIN))|
    ensures Utf8.Strict(stream).Some? && FinalParse(stream, o).body == body && FinalParse(stream, o).removed.count == 1
    ensures stream == Repeat(MARKER, 1) + body + Utf8.Encode(EventText("{}", PLAIN))
    ensures Output(stream, holdback, o) != body
  {
    hide Utf8.Encode, Utf8.Strict, Utf8.Lossy, FinalParse, EventText, Output, Repeat;
    stream, o := StreamExists(body, 1);
    ExactIffPrefix(stream, holdback, o);
    OneMarker();
    assert stream[0] == 0x3a;
    assert stream[..Ahead(|stream|, holdback)][0] == 0x3a;
  }

  lemma OneMarker()
    ensures |Repeat(MARKER, 1)| == |MARKER| && Repeat(MARKER, 1)[0] == 0x3a
  {
    assert Repeat(MARKER, 0) + MARKER == MARKER;
  }

  /** The end to end statement: any pieces of body ++ event, with an event that fits in the holdback. */
  lemma BodyComesThrough(chunks: seq<seq<byte>>, body: seq<byte>, json: string, l: Layout, holdback: nat, o: Oracle)
    requires Joined(chunks) == body + Utf8.Encode(EventText(json, l))
    requires Utf8.Strict(body).Some? && ObjectLine(json) && l.Valid()
    requires o.parseJson(json).Some? && Expected(o.parseJson(json)) == Some(o.sha256Hex(body))
    ensures FinalParse(Joined(chunks), o) == Parsed(body, o.parseJson(json), NOTHING)
    ensures Output(Joined(chunks), holdback, o) == body <==> |Utf8.Encode(EventText(json, l))| <= holdback
    ensures Output(Joined(chunks), holdback, o) == body ==> forall i :: 0 <= i <= |chunks| ==>
              var seen := Joined(chunks[..i]); seen[..Ahead(|seen|, holdback)] <= body
  {
    hide Utf8.Encode, Utf8.Strict, Utf8.Lossy, ParsedEvent, Joined, MARKER, EventText, ObjectLine, Expected;
    var event := Utf8.Encode(EventText(json, l));
    ValidConcat(body, EventText(json, l));
    TextIsUntouched(body + event);
    CaptureParsesBack(body, 0, json, l, o);
    RepeatNothing(body);
    ExactIffEventFits(chunks, holdback, o);
  }

  lemma ValidConcat(body: seq<byte>, text: string)
    requires Utf8.Strict(body).Some?
    ensures Utf8.Strict(body + Utf8.Encode(text)).Some?
  {
    hide Utf8.Encode, Utf8.Strict, Utf8.Lossy;
    Utf8.StrictIsInverse(body);
    Utf8.EncodeConcat(Utf8.Strict(body).value, text);
    Utf8.LossyOfEncode(Utf8.Strict(body).value + text);
  }
}
