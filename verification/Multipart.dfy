/**
 The multipart capture of a proved response: first part the body, second part the proof (section 5.1.1 of
 RFC 2046). Parts are cut by their Content-Length when it lands in front of a boundary line, otherwise at
 the next boundary line.
 */
module Multipart {
  import opened Bytes
  import opened Decimals
  import opened Json
  import opened Stripping
  import Text
  import Utf8

  const DASH: byte := 0x2d
  const DASHES: seq<byte> := [DASH, DASH]
  const BLANK_CRLF: seq<byte> := [CR, LF, CR, LF]
  const BLANK_LF: seq<byte> := [LF, LF]

  // ----- Header text -----

  const LENGTH_NAME := "content-length:"

  /** The length a header line states, in any case and with any white space around it. */
  function LengthLine(line: string): Option<nat> {
    if |line| < |LENGTH_NAME| || Lower(line[..|LENGTH_NAME|]) != LENGTH_NAME then None
    else
      var digits := Text.JsTrim(line[|LENGTH_NAME|..]);
      if digits != "" && AllDigits(digits) then Some(DecimalValue(digits)) else None
  }

  /** `headers.split(/\r?\n/)`. */
  function SplitLines(s: string): (lines: seq<string>)
    decreases |s|
  {
    var p := IndexOf(s, ['\n'], 0);
    if p == -1 then [s] else [Text.StripCr(s[..p], '\r')] + SplitLines(s[p + 1..])
  }

  function FirstLength(lines: seq<string>): Option<nat> {
    if lines == [] then None
    else if LengthLine(lines[0]).Some? then LengthLine(lines[0])
    else FirstLength(lines[1..])
  }

  function ContentLength(headers: string): Option<nat> {
    FirstLength(SplitLines(headers))
  }

  /**
   `multipartContentLength`. A number too large to be exact in the source is also too large to land inside
   any capture, so the exact value serves.
   */
  method MultipartContentLength(headers: string) returns (length: Option<nat>)
    ensures length == ContentLength(headers)
  {
    var lines := SplitLines(headers);
    for i := 0 to |lines|
      invariant FirstLength(lines) == FirstLength(lines[i..])
    {
      assert lines[i..][0] == lines[i] && lines[i..][1..] == lines[i + 1..];
      var value := LengthLine(lines[i]);
      if value.None? {
        continue;
      }
      return value;
    }
    length := None;
  }

  // ----- Boundaries -----

  function Delimiter(boundary: string): seq<byte> {
    Utf8.Encode("--" + boundary)
  }

  datatype First = First(boundary: string, offset: nat)

  predicate EndsWith<T(==)>(s: seq<T>, suffix: seq<T>) {
    |suffix| <= |s| && s[|s| - |suffix|..] == suffix
  }

  function FirstStart(bytes: seq<byte>): (start: int)
    ensures -1 <= start <= |bytes|
  {
    if DASHES <= bytes then 0
    else
      var p := IndexOf(bytes, [LF] + DASHES, 0);
      if p == -1 then -1 else p + 1
  }

  /** The first line that starts with two dashes, unless it also ends with them. */
  function FirstBoundary(bytes: seq<byte>): (f: Option<First>)
    ensures f.Some? ==> f.value.offset <= |bytes|
  {
    var start := FirstStart(bytes);
    if start == -1 then None
    else
      var lineEnd := IndexOf(bytes, [LF], start);
      if lineEnd == -1 then None
      else
        var line := Text.StripCr(Utf8.Lossy(bytes[start..lineEnd]), '\r');
        if !("--" <= line) || EndsWith(line, "--") then None else Some(First(line[2..], start))
  }

  /** The search of `firstMultipartBoundary` for the start of its line. */
  method FindFirstStart(bytes: seq<byte>) returns (start: int)
    ensures start == FirstStart(bytes)
  {
    start := if DASHES <= bytes then 0 else -1;
    if start < 0 {
      for i := 0 to |bytes|
        invariant start == -1 && forall q: nat :: q < i ==> !At(bytes, [LF] + DASHES, q)
      {
        AtThree(bytes, i);
        if bytes[i] == LF && i + 2 < |bytes| && bytes[i + 1] == DASH && bytes[i + 2] == DASH {
          start := i + 1;
          IndexOfIs(bytes, [LF] + DASHES, 0, i);
          break;
        }
      }
    }
  }

  /** `firstMultipartBoundary`. */
  method FirstMultipartBoundary(bytes: seq<byte>) returns (first: Option<First>)
    ensures first == FirstBoundary(bytes)
  {
    hide At, FirstStart, Utf8.Lossy;
    var start := FindFirstStart(bytes);
    if start < 0 {
      return None;
    }
    var lineEnd := IndexOf(bytes, [LF], start);
    if lineEnd < 0 {
      return None;
    }
    FoundInside(bytes, [LF], start);
    var firstLine := Utf8.Lossy(bytes[start..lineEnd]);
    if EndsWith(firstLine, ['\r']) {
      firstLine := firstLine[..|firstLine| - 1];
    }
    if !("--" <= firstLine) || EndsWith(firstLine, "--") {
      return None;
    }
    first := Some(First(firstLine[2..], start));
  }

  lemma FoundInside<T>(hay: seq<T>, needle: seq<T>, from: nat)
    ensures IndexOf(hay, needle, from) != -1 ==> IndexOf(hay, needle, from) + |needle| <= |hay|
  {
  }

  lemma AtThree(bytes: seq<byte>, i: nat)
    ensures At(bytes, [LF] + DASHES, i) <==> i + 2 < |bytes| && bytes[i] == LF && bytes[i + 1] == DASH && bytes[i + 2] == DASH
  {
    if i + 2 < |bytes| {
      assert bytes[i..i + 3] == [bytes[i], bytes[i + 1], bytes[i + 2]];
    }
  }

  datatype BoundaryLine = BoundaryLine(closing: bool, next: nat)

  /** `readMultipartBoundary`. */
  function ReadBoundary(bytes: seq<byte>, delimiter: seq<byte>, offset: nat): (b: Option<BoundaryLine>)
    ensures b.Some? ==> offset + |delimiter| <= b.value.next <= |bytes|
  {
    if !At(bytes, delimiter, offset) then None
    else
      var p := offset + |delimiter|;
      var closing := p + 1 < |bytes| && bytes[p] == DASH && bytes[p + 1] == DASH;
      var q := if closing then p + 2 else p;
      if closing && q == |bytes| then Some(BoundaryLine(closing, q))
      else
        var n := LineEnding(bytes, q);
        if n == -1 then None else Some(BoundaryLine(closing, n))
  }

  // ----- Parts -----

  datatype HeaderSplit = HeaderSplit(headerEnd: nat, bodyStart: nat)

  /** `multipartHeaderEnd`. */
  function HeaderEnd(bytes: seq<byte>, offset: nat): (h: Option<HeaderSplit>)
    ensures h.Some? ==> offset <= h.value.headerEnd < h.value.bodyStart <= |bytes|
  {
    var crlf, lf := IndexOf(bytes, BLANK_CRLF, offset), IndexOf(bytes, BLANK_LF, offset);
    if crlf >= 0 && (lf < 0 || crlf < lf) then Some(HeaderSplit(crlf, crlf + 4))
    else if lf >= 0 then Some(HeaderSplit(lf, lf + 2))
    else None
  }

  datatype Part = Part(headers: string, body: seq<byte>, next: nat)

  /** A line ending at `end` with the delimiter behind it. */
  predicate Lands(bytes: seq<byte>, delimiter: seq<byte>, end: nat) {
    end <= |bytes| && LineEnding(bytes, end) != -1 && At(bytes, delimiter, LineEnding(bytes, end))
  }

  datatype Cut = Cut(end: nat, next: nat)

  /** Where a part's body ends and its boundary line starts. */
  function PartEnd(bytes: seq<byte>, delimiter: seq<byte>, start: nat, length: Option<nat>): (c: Option<Cut>)
    requires start <= |bytes|
    ensures c.Some? ==> start <= c.value.end <= c.value.next <= |bytes|
  {
    if length.Some? && Lands(bytes, delimiter, start + length.value) then
      Some(Cut(start + length.value, LineEnding(bytes, start + length.value)))
    else
      var q := IndexOf(bytes, [LF] + delimiter, start);
      if q == -1 then None
      else if q > start && bytes[q - 1] == CR then Some(Cut(q - 1, q + 1))
      else Some(Cut(q, q + 1))
  }

  function ReadPart(bytes: seq<byte>, delimiter: seq<byte>, offset: nat): (p: Option<Part>)
    ensures p.Some? ==> p.value.next <= |bytes|
  {
    var h := HeaderEnd(bytes, offset);
    if h.None? then None
    else
      var headers := Utf8.Lossy(bytes[offset..h.value.headerEnd]);
      var c := PartEnd(bytes, delimiter, h.value.bodyStart, ContentLength(headers));
      if c.None? then None
      else Some(Part(headers, bytes[h.value.bodyStart..c.value.end], c.value.next))
  }

  lemma AtCons<T>(hay: seq<T>, x: T, needle: seq<T>, p: nat)
    ensures At(hay, [x] + needle, p) <==> p < |hay| && hay[p] == x && At(hay, needle, p + 1)
  {
    if p + 1 + |needle| <= |hay| {
      assert hay[p..p + 1 + |needle|] == [hay[p]] + hay[p + 1..p + 1 + |needle|];
    }
  }

  /** Looking for the delimiter behind CRLF and behind LF, and taking the earlier, is one search. */
  lemma TwoSearches(bytes: seq<byte>, delimiter: seq<byte>, start: nat)
    requires start <= |bytes|
    ensures var crlf, lf := IndexOf(bytes, [CR, LF] + delimiter, start), IndexOf(bytes, [LF] + delimiter, start);
      if lf != -1 && lf > start && bytes[lf - 1] == CR then crlf == lf - 1
      else crlf == -1 || (lf != -1 && lf < crlf)
  {
    hide At;
    var a, b := [CR, LF] + delimiter, [LF] + delimiter;
    var crlf, lf := IndexOf(bytes, a, start), IndexOf(bytes, b, start);
    assert a == [CR] + b;
    if crlf != -1 {
      AtCons(bytes, CR, b, crlf);
    }
    if lf > start {
      FoundInside(bytes, b, start);
      AtCons(bytes, CR, b, lf - 1);
      assert bytes[lf - 1] == CR ==> At(bytes, a, lf - 1);
    }
    if lf != -1 && lf == crlf {
      AtCons(bytes, LF, delimiter, lf);
    }
  }

  /** `readMultipartPart`. */
  method ReadMultipartPart(bytes: seq<byte>, delimiter: seq<byte>, offset: nat) returns (part: Option<Part>)
    ensures part == ReadPart(bytes, delimiter, offset)
  {
    hide Utf8.Lossy, At, HeaderEnd, LineEnding;
    var headerEnd := HeaderEnd(bytes, offset);
    if headerEnd.None? {
      return None;
    }
    var headers := Utf8.Lossy(bytes[offset..headerEnd.value.headerEnd]);
    var length := MultipartContentLength(headers);
    var bodyStart := headerEnd.value.bodyStart;
    var bodyEnd: int, nextBoundaryOffset: int := -1, -1;
    if length.Some? {
      var expectedEnd := bodyStart + length.value;
      if expectedEnd <= |bytes| {
        var expectedNext := LineEnding(bytes, expectedEnd);
        if expectedNext >= 0 && At(bytes, delimiter, expectedNext) {
          bodyEnd := expectedEnd;
          nextBoundaryOffset := expectedNext;
        }
      }
    }
    if bodyEnd < 0 {
      var crlfBoundary := IndexOf(bytes, [CR, LF] + delimiter, bodyStart);
      var lfBoundary := IndexOf(bytes, [LF] + delimiter, bodyStart);
      TwoSearches(bytes, delimiter, bodyStart);
      var marker: int, markerLength := -1, 0;
      if crlfBoundary >= 0 && (lfBoundary < 0 || crlfBoundary <= lfBoundary) {
        marker := crlfBoundary;
        markerLength := 2;
      } else if lfBoundary >= 0 {
        marker := lfBoundary;
        markerLength := 1;
      }
      if marker < 0 {
        return None;
      }
      bodyEnd := marker;
      nextBoundaryOffset := marker + markerLength;
    }
    assert PartEnd(bytes, delimiter, bodyStart, length) == Some(Cut(bodyEnd, nextBoundaryOffset));
    part := Some(Part(headers, bytes[bodyStart..bodyEnd], nextBoundaryOffset));
  }

  // ----- The whole capture -----

  datatype Captured = Captured(body: seq<byte>, proof: Option<Value>, ignoredBlank: nat)

  /** The proof part's JSON, unless it says that there is none. */
  function ProofOf(o: Oracle, part: seq<byte>): Option<Value> {
    var v := o.parseJson(Utf8.Lossy(part));
    if v.Some? && v.value.Get("type") == Some(Str("tee.proof_unavailable")) then None else v
  }

  function TwoParts(capture: seq<byte>, delimiter: seq<byte>, o: Oracle): Option<Captured> {
    var b1 := ReadBoundary(capture, delimiter, 0);
    if b1.None? || b1.value.closing then None
    else
      var response := ReadPart(capture, delimiter, b1.value.next);
      if response.None? then None
      else
        var b2 := ReadBoundary(capture, delimiter, response.value.next);
        if b2.None? || b2.value.closing then None
        else
          var proof := ReadPart(capture, delimiter, b2.value.next);
          if proof.None? then None
          else
            var b3 := ReadBoundary(capture, delimiter, proof.value.next);
            if b3.None? || !b3.value.closing then None
            else Some(Captured(response.value.body, ProofOf(o, proof.value.body), 0))
  }

  /** `stripBoundarySeparatorLineEnding`. */
  function StripSeparator(bytes: seq<byte>): seq<byte> {
    if EndsWith(bytes, [CR, LF]) then bytes[..|bytes| - 2]
    else if EndsWith(bytes, [LF]) then bytes[..|bytes| - 1]
    else bytes
  }

  /** `parseTeeProofMultipartTailCapture`: a raw body in front of a proof part. */
  function TailCapture(bytes: seq<byte>, delimiter: seq<byte>, offset: nat, o: Oracle,
                       isProofPart: string -> bool): Option<Captured>
    requires offset <= |bytes|
  {
    var capture := bytes[offset..];
    var b1 := ReadBoundary(capture, delimiter, 0);
    if b1.None? || b1.value.closing then None
    else
      var part := ReadPart(capture, delimiter, b1.value.next);
      if part.None? || !isProofPart(part.value.headers) then None
      else
        var b2 := ReadBoundary(capture, delimiter, part.value.next);
        if b2.None? || !b2.value.closing then None
        else
          var proof := ProofOf(o, part.value.body);
          var body := StripSeparator(bytes[..offset]);
          BlankLinesAreSafe(body, Expected(proof), o.sha256Hex);
          var r := Strip(BlankLine, body, Expected(proof), o.sha256Hex);
          Some(Captured(body[r.offset..], proof, r.offset))
  }

  function BoundaryOf(bytes: seq<byte>, declared: Option<string>): Option<string> {
    if declared.Some? && declared.value != "" then declared
    else if FirstBoundary(bytes).Some? then Some(FirstBoundary(bytes).value.boundary)
    else None
  }

  /**
   `parseTeeProofMultipartResponse`. `declared` is the boundary of the content type header, if it names one;
   `isProofPart` says whether a part's headers declare a proof.
   */
  function Parse(bytes: seq<byte>, declared: Option<string>, o: Oracle, isProofPart: string -> bool): Option<Captured> {
    var first, boundary := FirstBoundary(bytes), BoundaryOf(bytes, declared);
    if boundary.None? then None
    else
      var delimiter := Delimiter(boundary.value);
      var start := if first.Some? && first.value.boundary == boundary.value then first.value.offset else 0;
      var tail := if start > 0 then TailCapture(bytes, delimiter, start, o, isProofPart) else None;
      if tail.Some? then tail else TwoParts(bytes[start..], delimiter, o)
  }
}
