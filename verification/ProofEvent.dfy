/**
 The proof event at the end of a captured event stream: found by its last marker line, cut off, and the
 transport keepalives in front of the body removed under the signed digest.
 */
module ProofEvent {
  import opened Bytes
  import opened Json
  import opened Stripping
  import Utf8

  const EVENT := "event: tee.proof"
  const DATA := "data: "

  // ----- Finding the last marker -----

  function LastFrom<T(==)>(hay: seq<T>, needle: seq<T>, from: int): (p: int)
    requires from <= |hay|
    ensures p == -1 || (0 <= p <= from && At(hay, needle, p))
    ensures forall q: nat :: q <= from && At(hay, needle, q) ==> q <= p
    decreases from + 1
  {
    if from < 0 then -1
    else if At(hay, needle, from) then from
    else LastFrom(hay, needle, from - 1)
  }

  /** `Buffer.lastIndexOf`. */
  function LastIndexOf<T(==)>(hay: seq<T>, needle: seq<T>): (p: int)
    ensures p == -1 || (0 <= p && At(hay, needle, p))
    ensures forall q: nat :: At(hay, needle, q) ==> q <= p
  {
    LastFrom(hay, needle, |hay|)
  }

  function Marker(eol: string): seq<byte> {
    Utf8.Encode(EVENT + eol)
  }

  function Locate(bytes: seq<byte>): (idx: int)
    ensures -1 <= idx <= |bytes|
  {
    var lf, crlf := LastIndexOf(bytes, Marker("\n")), LastIndexOf(bytes, Marker("\r\n"));
    if lf >= crlf then lf else crlf
  }

  // ----- The shape of the event -----

  /** `\r?\n` at the front of a text: what is behind it. */
  function DropEol(s: string): (t: Option<string>)
    ensures t.Some? ==> |t.value| < |s|
  {
    if |s| >= 2 && s[0] == '\r' && s[1] == '\n' then Some(s[2..])
    else if |s| >= 1 && s[0] == '\n' then Some(s[1..])
    else None
  }

  /** How many characters stand before the first CR or LF. */
  function LineLength(s: string): (n: nat)
    ensures n <= |s| && (forall i :: 0 <= i < n ==> s[i] != '\r' && s[i] != '\n')
    ensures n < |s| ==> s[n] == '\r' || s[n] == '\n'
  {
    if s == "" || s[0] == '\r' || s[0] == '\n' then 0 else 1 + LineLength(s[1..])
  }

  predicate Padding(s: string) {
    forall i :: 0 <= i < |s| ==> s[i] == '\t' || s[i] == '\n' || s[i] == '\r' || s[i] == ' '
  }

  /** What must follow the data line: its end, one empty line, and white space to the end. */
  predicate Ending(s: string) {
    var t := DropEol(s);
    t.Some? && DropEol(t.value).Some? && Padding(DropEol(t.value).value)
  }

  /** The data of a block that is exactly one proof event. */
  function MatchEvent(text: string): Option<string> {
    if !(EVENT <= text) || DropEol(text[|EVENT|..]).None? then None
    else
      var line := DropEol(text[|EVENT|..]).value;
      if !(DATA <= line) then None
      else
        var rest := line[|DATA|..];
        var n := LineLength(rest);
        if n > 0 && Ending(rest[n..]) then Some(rest[..n]) else None
  }

  // ----- The parser -----

  datatype Parsed = Parsed(body: seq<byte>, proof: Option<Value>, removed: Removed)

  function ParsedEvent(bytes: seq<byte>, o: Oracle): Parsed {
    var idx := Locate(bytes);
    if idx < 0 then Parsed(bytes, None, NOTHING)
    else
      var data := MatchEvent(Utf8.Lossy(bytes[idx..]));
      if data.None? || o.parseJson(data.value).None? then Parsed(bytes, None, NOTHING)
      else
        var proof := o.parseJson(data.value);
        StripIs(Keepalive, bytes[..idx], Expected(proof), o.sha256Hex);
        KeepalivesAreSafe(bytes[..idx], Expected(proof), o.sha256Hex);
        var r := Strip(Keepalive, bytes[..idx], Expected(proof), o.sha256Hex);
        Parsed(bytes[..idx][r.offset..], proof, r)
  }

  /** `parseTeeProofEvent`. */
  method ParseTeeProofEvent(bytes: seq<byte>, o: Oracle) returns (parsed: Parsed, ghost event: seq<byte>)
    ensures parsed == ParsedEvent(bytes, o)
    ensures parsed.proof.None? ==> parsed.body == bytes && parsed.removed == NOTHING
    ensures parsed.proof.Some? ==>
              && bytes == Repeat(MARKER, parsed.removed.count) + parsed.body + event
              && MatchEvent(Utf8.Lossy(event)).Some? && parsed.proof == o.parseJson(MatchEvent(Utf8.Lossy(event)).value)
              && (parsed.removed.count > 0 ==> Expected(parsed.proof) == Some(o.sha256Hex(parsed.body)))
  {
    hide Locate, MatchEvent, Strip, Marker, At, Expected;
    event := ParseIsConservative(bytes, o);
    parsed := Parsed(bytes, None, NOTHING);
    var idx := Locate(bytes);
    if idx < 0 {
      return;
    }
    var data := MatchEvent(Utf8.Lossy(bytes[idx..]));
    if data.None? {
      return;
    }
    var proof := o.parseJson(data.value);
    if proof.None? {
      return;
    }
    var kept, ignored, count := RemoveKeepalives(bytes[..idx], proof, o.sha256Hex);
    parsed := Parsed(kept, proof, Removed(ignored, count));
  }

  // ----- Safety on every input -----

  /**
   Without a proof nothing is touched. With one, the input is markers + body + event: the event is a
   well-formed block around the proof's text with no later marker line in it, and markers are
   removed only to reach a body that carries the signed digest.
   */
  lemma ParseIsConservative(bytes: seq<byte>, o: Oracle) returns (event: seq<byte>)
    ensures var p := ParsedEvent(bytes, o);
      && (p.proof.None? ==> p.body == bytes && p.removed == NOTHING)
      && (p.proof.Some? ==>
            && bytes == Repeat(MARKER, p.removed.count) + p.body + event
            && MatchEvent(Utf8.Lossy(event)).Some? && p.proof == o.parseJson(MatchEvent(Utf8.Lossy(event)).value)
            && (forall q: nat :: 0 < q ==> !At(event, Marker("\n"), q) && !At(event, Marker("\r\n"), q))
            && (p.removed.count > 0 ==> Expected(p.proof) == Some(o.sha256Hex(p.body))))
  {
    hide MatchEvent, Strip, Marker, Expected;
    event := [];
    var idx := Locate(bytes);
    var p := ParsedEvent(bytes, o);
    if p.proof.Some? {
      event := bytes[idx..];
      KeepalivesAreSafe(bytes[..idx], Expected(p.proof), o.sha256Hex);
      assert bytes == bytes[..idx] + event;
      forall q: nat | 0 < q
        ensures !At(event, Marker("\n"), q) && !At(event, Marker("\r\n"), q)
      {
        NoLater(bytes, idx, Marker("\n"), q);
        NoLater(bytes, idx, Marker("\r\n"), q);
      }
    }
  }

  lemma NoLater(bytes: seq<byte>, idx: nat, marker: seq<byte>, q: nat)
    requires idx <= |bytes| && 0 < q && LastIndexOf(bytes, marker) <= idx
    ensures !At(bytes[idx..], marker, q)
  {
    hide At;
    assert bytes == bytes[..idx] + bytes[idx..];
    AtShift(bytes[..idx], bytes[idx..], marker, q);
  }

  // ----- Round trip -----

  predicate Eol(s: string) {
    s == "\n" || s == "\r\n"
  }

  /** The text of one JSON object on one line. */
  predicate ObjectLine(json: string) {
    json != "" && json[|json| - 1] == '}' && '\r' !in json && '\n' !in json
  }

  /** A proof event as a relay appends it, with either line ending and any white space behind it. */
  datatype Layout = Layout(first: string, second: string, third: string, padding: string) {
    predicate Valid() {
      Eol(first) && Eol(second) && Eol(third) && Padding(padding)
    }
  }

  function EventText(json: string, l: Layout): string {
    EVENT + (l.first + (DATA + (json + (l.second + (l.third + l.padding)))))
  }

  lemma DropEolOf(eol: string, s: string)
    requires Eol(eol)
    ensures DropEol(eol + s) == Some(s)
  {
    assert (eol + s)[|eol|..] == s;
  }

  lemma LineLengthOf(line: string, s: string)
    requires '\r' !in line && '\n' !in line && s != "" && (s[0] == '\r' || s[0] == '\n')
    ensures LineLength(line + s) == |line|
  {
    var t := line + s;
    assert t[|line|] == s[0];
    assert forall i :: 0 <= i < |line| ==> t[i] == line[i];
  }

  lemma EventMatches(json: string, l: Layout)
    requires ObjectLine(json) && l.Valid()
    ensures MatchEvent(EventText(json, l)) == Some(json)
  {
    AnyEventMatches(json, l);
  }

  lemma AnyEventMatches(json: string, l: Layout)
    requires json != "" && '\r' !in json && '\n' !in json && l.Valid()
    ensures MatchEvent(EventText(json, l)) == Some(json)
  {
    hide DropEol, LineLength;
    var ending := l.second + (l.third + l.padding);
    var rest := json + ending;
    var line := DATA + rest;
    var text := EventText(json, l);
    assert text[|EVENT|..] == l.first + line;
    DropEolOf(l.first, line);
    assert line[|DATA|..] == rest;
    LineLengthOf(json, ending);
    assert rest[..|json|] == json && rest[|json|..] == ending;
    DropEolOf(l.second, l.third + l.padding);
    DropEolOf(l.third, l.padding);
  }

  /**
   A block is matched with its data exactly when it is the marker line, one data line, an empty line and white space,
   with either line ending each time.
   */
  lemma MatchIff(text: string, json: string)
    ensures MatchEvent(text) == Some(json) <==> IsEventWith(text, json)
  {
    if MatchEvent(text) == Some(json) {
      MatchParts(text, json);
    }
    if IsEventWith(text, json) {
      var l: Layout :| l.Valid() && text == EventText(json, l);
      AnyEventMatches(json, l);
    }
  }

  ghost predicate IsEventWith(text: string, json: string) {
    && json != "" && '\r' !in json && '\n' !in json
    && exists l: Layout :: l.Valid() && text == EventText(json, l)
  }

  /** The two halves of a matched block. */
  lemma MatchParts(text: string, json: string)
    requires MatchEvent(text) == Some(json)
    ensures IsEventWith(text, json)
  {
    hide DropEol, LineLength, Padding, Ending;
    var line := DropEol(text[|EVENT|..]).value;
    var rest := line[|DATA|..];
    var n := LineLength(rest);
    var e1 := EolOf(text[|EVENT|..]);
    Parts(text, |EVENT|, e1 + line);
    Parts(line, |DATA|, rest);
    Parts(rest, n, rest[n..]);
    assert text == EVENT + (e1 + (DATA + (json + rest[n..])));
    hide EVENT, DATA, MatchEvent;
    var e2, e3, padding := EndingParts(rest[n..]);
    var l := Layout(e1, e2, e3, padding);
    assert text == EventText(json, l) && l.Valid();
  }

  lemma EndingParts(s: string) returns (e2: string, e3: string, padding: string)
    requires Ending(s)
    ensures Eol(e2) && Eol(e3) && Padding(padding) && s == e2 + (e3 + padding)
  {
    hide DropEol, Padding, Eol;
    e2 := EolOf(s);
    e3 := EolOf(DropEol(s).value);
    padding := DropEol(DropEol(s).value).value;
  }

  lemma Parts(s: string, n: nat, rest: string)
    requires n <= |s| && s[n..] == rest
    ensures s == s[..n] + rest
  {
  }

  lemma EolOf(s: string) returns (e: string)
    requires DropEol(s).Some?
    ensures Eol(e) && s == e + DropEol(s).value
  {
    e := s[..|s| - |DropEol(s).value|];
    assert e == "\n" || e == "\r\n";
  }

  /** Every `f` in it is followed, still inside, by something other than a line ending. */
  predicate Safe(s: seq<byte>) {
    forall i :: 0 <= i < |s| && s[i] == 0x66 ==> i + 1 < |s| && s[i + 1] != CR && s[i + 1] != LF
  }

  lemma SafeConcat(a: seq<byte>, b: seq<byte>)
    requires Safe(a) && Safe(b)
    ensures Safe(a + b)
  {
    var c := a + b;
    forall i | 0 <= i < |c| && c[i] == 0x66
      ensures i + 1 < |c| && c[i + 1] != CR && c[i + 1] != LF
    {
      if i < |a| {
        assert a[i] == 0x66 && c[i + 1] == a[i + 1];
      } else {
        assert b[i - |a|] == 0x66 && c[i + 1] == b[i - |a| + 1];
      }
    }
  }

  lemma NoFIsSafe(s: string)
    requires 'f' !in s
    ensures Safe(Utf8.Encode(s))
  {
    hide Utf8.Encode;
    Utf8.OctetOf(s, 0x66);
  }

  lemma ObjectIsSafe(json: string)
    requires ObjectLine(json)
    ensures Safe(Utf8.Encode(json))
  {
    hide Utf8.Encode;
    var b := Utf8.Encode(json);
    Utf8.OctetOf(json, CR);
    Utf8.OctetOf(json, LF);
    Utf8.LossyOfEncode(json);
    Utf8.LossyOfEmpty();
    assert b != [];
    Utf8.LossyLast(b, 0x7d);
  }

  /** The octets behind the marker line's text. */
  function Tail(json: string, l: Layout): seq<byte> {
    Utf8.Encode(l.first + (DATA + (json + (l.second + (l.third + l.padding)))))
  }

  lemma SafeText(s: string, t: string)
    requires Safe(Utf8.Encode(s)) && Safe(Utf8.Encode(t))
    ensures Safe(Utf8.Encode(s + t))
  {
    Utf8.EncodeConcat(s, t);
    SafeConcat(Utf8.Encode(s), Utf8.Encode(t));
  }

  lemma TailIsSafe(json: string, l: Layout)
    requires ObjectLine(json) && l.Valid()
    ensures Safe(Tail(json, l))
  {
    hide Safe, Utf8.Encode, ObjectLine;
    NoFIsSafe(l.padding);
    NoFIsSafe(l.third);
    NoFIsSafe(l.second);
    NoFIsSafe(l.first);
    NoFIsSafe(DATA);
    ObjectIsSafe(json);
    SafeText(l.third, l.padding);
    SafeText(l.second, l.third + l.padding);
    SafeText(json, l.second + (l.third + l.padding));
    SafeText(DATA, json + (l.second + (l.third + l.padding)));
    SafeText(l.first, DATA + (json + (l.second + (l.third + l.padding))));
  }

  lemma EncodedLast(s: string)
    requires s != "" && s[|s| - 1] == 'f' && Utf8.Encode(s) != []
    ensures Utf8.Encode(s)[|Utf8.Encode(s)| - 1] == 0x66
  {
    hide Utf8.Encode;
    Utf8.LossyOfEncode(s);
    Utf8.LossyLast(Utf8.Encode(s), 0x66);
  }

  lemma EncodedEvent()
    ensures |Utf8.Encode(EVENT)| == |EVENT|
    ensures Utf8.Encode(EVENT)[|EVENT| - 1] == 0x66
  {
    hide Utf8.Encode;
    Utf8.AsciiLength(EVENT);
    EncodedLast(EVENT);
  }

  lemma EncodedEol(eol: string)
    requires Eol(eol)
    ensures Utf8.Encode(eol) == if eol == "\n" then [LF] else [CR, LF]
  {
    assert "\n"[1..] == "" && "\r\n"[1..] == "\n";
  }

  lemma MarkerIs(eol: string)
    requires Eol(eol)
    ensures Marker(eol) == Utf8.Encode(EVENT) + Utf8.Encode(eol)
    ensures Marker(eol) == Utf8.Encode(EVENT) + if eol == "\n" then [LF] else [CR, LF]
  {
    hide Utf8.Encode;
    Utf8.EncodeConcat(EVENT, eol);
    EncodedEol(eol);
  }

  lemma AtElement<T>(hay: seq<T>, needle: seq<T>, q: nat, i: nat)
    requires i < |needle|
    ensures At(hay, needle, q) ==> hay[q + i] == needle[i]
  {
    assert At(hay, needle, q) ==> hay[q..q + |needle|][i] == hay[q + i];
  }

  /** In `EVENT + tail` with a safe tail no marker starts behind the front. */
  lemma MarkerOnlyInFront(tail: seq<byte>, eol: string, q: nat)
    requires Safe(tail) && Eol(eol) && 0 < q
    ensures !At(Utf8.Encode(EVENT) + tail, Marker(eol), q)
  {
    hide Utf8.Encode, Marker;
    EncodedEvent();
    MarkerIs(eol);
    var e := Utf8.Encode(EVENT);
    var n, m := |e|, Marker(eol);
    assert forall i: nat :: n <= i < |e + tail| ==> (e + tail)[i] == tail[i - n];
    AtElement(e + tail, m, q, n - 1);
    AtElement(e + tail, m, q, n);
  }

  lemma MarkerInFront(json: string, l: Layout)
    requires l.Valid()
    ensures At(Utf8.Encode(EventText(json, l)), Marker(l.first), 0)
  {
    hide Utf8.Encode;
    var t := DATA + (json + (l.second + (l.third + l.padding)));
    assert EventText(json, l) == (EVENT + l.first) + t;
    Utf8.EncodeConcat(EVENT + l.first, t);
  }

  /** Behind any octets whatever, an appended event is the one that is found, and it parses to its data. */
  lemma EventIsFound(pre: seq<byte>, json: string, l: Layout)
    requires ObjectLine(json) && l.Valid()
    ensures Locate(pre + Utf8.Encode(EventText(json, l))) == |pre|
    ensures MatchEvent(Utf8.Lossy((pre + Utf8.Encode(EventText(json, l)))[|pre|..])) == Some(json)
  {
    hide Utf8.Encode, MatchEvent, Safe, Marker, EventText, ObjectLine, At;
    var e := Utf8.Encode(EventText(json, l));
    EventMatches(json, l);
    Utf8.LossyOfEncode(EventText(json, l));
    assert (pre + e)[|pre|..] == e;
    TailIsSafe(json, l);
    EventIs(json, l);
    MarkerInFront(json, l);
    AtShift(pre, e, Marker(l.first), 0);
    LastIs(pre, e, Tail(json, l), "\n");
    LastIs(pre, e, Tail(json, l), "\r\n");
  }

  lemma EventIs(json: string, l: Layout)
    ensures Utf8.Encode(EventText(json, l)) == Utf8.Encode(EVENT) + Tail(json, l)
  {
    hide Utf8.Encode;
    Utf8.EncodeConcat(EVENT, l.first + (DATA + (json + (l.second + (l.third + l.padding)))));
  }

  lemma AtShift<T>(pre: seq<T>, s: seq<T>, needle: seq<T>, q: nat)
    ensures At(pre + s, needle, |pre| + q) <==> At(s, needle, q)
  {
    if q + |needle| <= |s| {
      assert (pre + s)[|pre| + q..|pre| + q + |needle|] == s[q..q + |needle|];
    }
  }

  lemma LastIs(pre: seq<byte>, e: seq<byte>, tail: seq<byte>, eol: string)
    requires Safe(tail) && Eol(eol) && e == Utf8.Encode(EVENT) + tail
    ensures LastIndexOf(pre + e, Marker(eol)) <= |pre|
  {
    hide Safe, Utf8.Encode, Marker, At;
    var p := LastIndexOf(pre + e, Marker(eol));
    if p > |pre| {
      AtShift(pre, e, Marker(eol), p - |pre|);
      MarkerOnlyInFront(tail, eol, p - |pre|);
    }
  }

  /**
   The round trip: any number of keepalives, any body, and a proof event that carries the body's digest
   parse back to exactly that body, that proof and that number of removed markers - if and only if the hash
   tells the body from the longer candidates.
   */
  lemma CaptureParsesBack(body: seq<byte>, k: nat, json: string, l: Layout, o: Oracle)
    requires ObjectLine(json) && l.Valid() && o.parseJson(json).Some?
    requires Expected(o.parseJson(json)) == Some(o.sha256Hex(body))
    ensures var capture := Repeat(MARKER, k) + body + Utf8.Encode(EventText(json, l));
      ParsedEvent(capture, o) == Parsed(body, o.parseJson(json), Removed(k * |MARKER|, k)) <==> NoCollision(o.sha256Hex, body, k)
  {
    hide Utf8.Encode, MatchEvent, Locate, Repeat, EventText, ObjectLine, Strip, Expected, MARKER;
    var pre := Repeat(MARKER, k) + body;
    var bytes := pre + Utf8.Encode(EventText(json, l));
    EventIsFound(pre, json, l);
    assert bytes[..|pre|] == pre;
    KeepalivesComeOff(body, k, o.sha256Hex);
  }

  /** An event that signs no digest, or another body's, is cut off and the bytes before it are left alone. */
  lemma OtherDigestsLeaveTheBody(pre: seq<byte>, json: string, l: Layout, o: Oracle)
    requires ObjectLine(json) && l.Valid() && o.parseJson(json).Some?
    requires forall k: nat :: k * |MARKER| <= |pre| ==>
        Expected(o.parseJson(json)) != Some(o.sha256Hex(pre[k * |MARKER|..]))
    ensures ParsedEvent(pre + Utf8.Encode(EventText(json, l)), o) == Parsed(pre, o.parseJson(json), NOTHING)
  {
    hide Utf8.Encode, MatchEvent, Locate, EventText, ObjectLine, Expected, MARKER;
    var bytes := pre + Utf8.Encode(EventText(json, l));
    EventIsFound(pre, json, l);
    assert bytes[..|pre|] == pre;
    var expected := Expected(o.parseJson(json));
    StripIs(Keepalive, pre, expected, o.sha256Hex);
    forall k: nat | Chain(Keepalive, pre, k).Some?
      ensures expected != Some(o.sha256Hex(pre[Chain(Keepalive, pre, k).value..]))
    {
      KeepalivesAre(pre, k);
    }
    assert pre[0..] == pre;
  }
}
