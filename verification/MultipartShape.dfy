/**
 The other half of the multipart round trip: whatever the capture parser accepts has the shape of a capture, octet
 for octet, and what it returns is read off that shape.
 */
module MultipartShape {
  import opened Bytes
  import opened Json
  import opened Multipart
  import opened Stripping
  import Utf8

  predicate IsEol(e: seq<byte>) {
    e == [CR, LF] || e == [LF]
  }

  /** The empty line between the headers and the body of a part. */
  predicate IsGap(g: seq<byte>) {
    g == [CR, LF, CR, LF] || g == [LF, LF]
  }

  datatype PartText = PartText(header: seq<byte>, gap: seq<byte>, body: seq<byte>, eol: seq<byte>) {
    predicate Valid() {
      IsGap(gap) && IsEol(eol)
    }

    function Octets(): seq<byte> {
      header + gap + body + eol
    }
  }

  /** What may stand behind the last delimiter. */
  ghost predicate IsClose(rest: seq<byte>) {
    exists e: seq<byte>, t: seq<byte> :: rest == [DASH, DASH] + e + t && (IsEol(e) || (e == [] && t == []))
  }

  /** Of a proof part the JSON value counts, unless it says that there is no proof. */
  predicate IsProof(o: Oracle, text: seq<byte>, proof: Option<Value>) {
    var v := o.parseJson(Utf8.Lossy(text));
    if v.Some? && v.value.Get("type") == Some(Str("tee.proof_unavailable")) then proof == None else proof == v
  }

  // ----- Lines and parts -----

  lemma LineEndingIs(bytes: seq<byte>, p: nat)
    ensures LineEnding(bytes, p) != -1 ==> p <= LineEnding(bytes, p) <= |bytes| && IsEol(bytes[p..LineEnding(bytes, p)])
  {
    if p + 1 < |bytes| && bytes[p] == CR && bytes[p + 1] == LF {
      assert bytes[p..p + 2] == [CR, LF];
    } else if p < |bytes| && bytes[p] == LF {
      assert bytes[p..p + 1] == [LF];
    }
  }

  /** An opening boundary line is the delimiter and a line ending. */
  lemma BoundaryIs(bytes: seq<byte>, delimiter: seq<byte>, offset: nat) returns (eol: seq<byte>)
    requires ReadBoundary(bytes, delimiter, offset).Some? && !ReadBoundary(bytes, delimiter, offset).value.closing
    ensures IsEol(eol) && bytes[offset..ReadBoundary(bytes, delimiter, offset).value.next] == delimiter + eol
  {
    hide LineEnding;
    var p := offset + |delimiter|;
    LineEndingIs(bytes, p);
    var n := ReadBoundary(bytes, delimiter, offset).value.next;
    eol := bytes[p..n];
    assert bytes[offset..n] == bytes[offset..p] + bytes[p..n];
  }

  /** A closing one is followed by two dashes, and then by a line ending or by nothing. */
  lemma CloseIs(bytes: seq<byte>, delimiter: seq<byte>, offset: nat) returns (rest: seq<byte>)
    requires ReadBoundary(bytes, delimiter, offset).Some? && ReadBoundary(bytes, delimiter, offset).value.closing
    ensures IsClose(rest) && offset <= |bytes| && bytes[offset..] == delimiter + rest
  {
    hide LineEnding;
    var p := offset + |delimiter|;
    LineEndingIs(bytes, p + 2);
    rest := bytes[p..];
    var n := ReadBoundary(bytes, delimiter, offset).value.next;
    var e, t := bytes[p + 2..n], bytes[n..];
    assert rest == [DASH, DASH] + e + t;
    assert bytes[offset..] == bytes[offset..p] + bytes[p..];
  }

  lemma HeaderEndIs(bytes: seq<byte>, offset: nat)
    requires HeaderEnd(bytes, offset).Some?
    ensures var h := HeaderEnd(bytes, offset).value;
      && IsGap(bytes[h.headerEnd..h.bodyStart])
      && forall q: nat :: offset <= q < h.headerEnd ==> !At(bytes, BLANK_CRLF, q) && !At(bytes, BLANK_LF, q)
  {
    var crlf, lf := IndexOf(bytes, BLANK_CRLF, offset), IndexOf(bytes, BLANK_LF, offset);
  }

  lemma PartEndIs(bytes: seq<byte>, delimiter: seq<byte>, start: nat, length: Option<nat>)
    requires start <= |bytes| && PartEnd(bytes, delimiter, start, length).Some?
    ensures var c := PartEnd(bytes, delimiter, start, length).value;
      && IsEol(bytes[c.end..c.next]) && At(bytes, delimiter, c.next)
      && (length == Some(c.end - start) || forall q: nat :: start <= q < c.next - 1 ==> !At(bytes, [LF] + delimiter, q))
  {
    hide LineEnding;
    var c := PartEnd(bytes, delimiter, start, length).value;
    if length.Some? && Lands(bytes, delimiter, start + length.value) {
      LineEndingIs(bytes, start + length.value);
    } else {
      var q := IndexOf(bytes, [LF] + delimiter, start);
      AtCons(bytes, LF, delimiter, q);
      if q > start && bytes[q - 1] == CR {
        assert bytes[q - 1..q + 1] == [CR, LF];
      } else {
        assert bytes[q..q + 1] == [LF];
      }
    }
  }

  /** What stands between two boundary lines: headers, an empty line, the body, a line ending. */
  lemma PartIs(bytes: seq<byte>, delimiter: seq<byte>, offset: nat) returns (t: PartText)
    requires ReadPart(bytes, delimiter, offset).Some?
    ensures var p := ReadPart(bytes, delimiter, offset).value;
      && t.Valid() && offset <= p.next && bytes[offset..p.next] == t.Octets() && t.body == p.body
      && p.headers == Utf8.Lossy(t.header) && At(bytes, delimiter, p.next)
    ensures forall q: nat :: offset <= q < offset + |t.header| ==> !At(bytes, BLANK_CRLF, q) && !At(bytes, BLANK_LF, q)
    ensures var start := offset + |t.header| + |t.gap|;
      ContentLength(Utf8.Lossy(t.header)) == Some(|t.body|)
      || forall q: nat :: start <= q < ReadPart(bytes, delimiter, offset).value.next - 1 ==> !At(bytes, [LF] + delimiter, q)
  {
    hide Utf8.Lossy, At, HeaderEnd, PartEnd, ContentLength;
    HeaderEndIs(bytes, offset);
    var h := HeaderEnd(bytes, offset).value;
    var length := ContentLength(Utf8.Lossy(bytes[offset..h.headerEnd]));
    PartEndIs(bytes, delimiter, h.bodyStart, length);
    var c := PartEnd(bytes, delimiter, h.bodyStart, length).value;
    t := PartText(bytes[offset..h.headerEnd], bytes[h.headerEnd..h.bodyStart], bytes[h.bodyStart..c.end], bytes[c.end..c.next]);
    Slices(bytes, offset, h.headerEnd, h.bodyStart, c.end, c.next);
  }

  lemma Slices<T>(s: seq<T>, a: nat, b: nat, c: nat, d: nat, e: nat)
    requires a <= b <= c <= d <= e <= |s|
    ensures s[a..e] == s[a..b] + s[b..c] + s[c..d] + s[d..e]
  {
    Joined(s, a, b, c);
    Joined(s, a, c, d);
    Joined(s, a, d, e);
  }

  lemma Joined<T>(s: seq<T>, a: nat, b: nat, c: nat)
    requires a <= b <= c <= |s|
    ensures s[a..c] == s[a..b] + s[b..c]
  {
  }

  // ----- Two parts -----

  /** A capture of two parts. */
  datatype Shape = Shape(first: seq<byte>, response: PartText, second: seq<byte>, proof: PartText, rest: seq<byte>) {
    ghost predicate Valid() {
      IsEol(first) && response.Valid() && IsEol(second) && proof.Valid() && IsClose(rest)
    }

    function Octets(delimiter: seq<byte>): seq<byte> {
      (delimiter + first) + response.Octets() + (delimiter + second) + proof.Octets() + (delimiter + rest)
    }
  }

  /** Whatever is accepted as two parts is two parts, and gives the body of the first and the proof in the second. */
  lemma TwoPartsAre(capture: seq<byte>, delimiter: seq<byte>, o: Oracle) returns (s: Shape)
    requires TwoParts(capture, delimiter, o).Some?
    ensures var x := TwoParts(capture, delimiter, o).value;
      && s.Valid() && capture == s.Octets(delimiter) && x.body == s.response.body && x.ignoredBlank == 0
      && IsProof(o, s.proof.body, x.proof)
  {
    hide ReadBoundary, ReadPart, At, Utf8.Lossy, ContentLength, IsClose;
    var n1 := ReadBoundary(capture, delimiter, 0).value.next;
    var n2 := ReadPart(capture, delimiter, n1).value.next;
    var n3 := ReadBoundary(capture, delimiter, n2).value.next;
    var n4 := ReadPart(capture, delimiter, n3).value.next;
    var first := BoundaryIs(capture, delimiter, 0);
    var response := PartIs(capture, delimiter, n1);
    var second := BoundaryIs(capture, delimiter, n2);
    var proof := PartIs(capture, delimiter, n3);
    var rest := CloseIs(capture, delimiter, n4);
    s := Shape(first, response, second, proof, rest);
    Pieces(capture, n1, n2, n3, n4);
  }

  lemma Pieces<T>(s: seq<T>, a: nat, b: nat, c: nat, d: nat)
    requires a <= b <= c <= d <= |s|
    ensures s == s[0..a] + s[a..b] + s[b..c] + s[c..d] + s[d..]
  {
    Slices(s, 0, a, b, c, d);
    Joined(s, 0, d, |s|);
    assert s[0..|s|] == s && s[d..|s|] == s[d..];
  }

  // ----- A raw body in front of a proof part -----

  /**
   Blank lines that were removed, the body, the line ending in front of the boundary if there is one, and one part.
   */
  datatype TailShape = TailShape(
    removed: seq<byte>, body: seq<byte>, separator: seq<byte>, eol: seq<byte>, proof: PartText, rest: seq<byte>)
  {
    ghost predicate Valid() {
      && (forall i :: 0 <= i < |removed| ==> BlankOctet(removed[i])) && (IsEol(separator) || separator == [])
      && IsEol(eol) && proof.Valid() && IsClose(rest)
    }

    function Octets(delimiter: seq<byte>): seq<byte> {
      removed + body + separator + ((delimiter + eol) + proof.Octets() + (delimiter + rest))
    }
  }

  lemma SeparatorIs(bytes: seq<byte>) returns (separator: seq<byte>)
    ensures (IsEol(separator) || separator == []) && bytes == StripSeparator(bytes) + separator
  {
    separator := bytes[|StripSeparator(bytes)|..];
  }

  /** Whatever is accepted as a tail has that shape; blank lines go only where the rest carries the signed digest. */
  lemma TailIs(bytes: seq<byte>, delimiter: seq<byte>, offset: nat, o: Oracle,
               isProofPart: string -> bool) returns (s: TailShape)
    requires offset <= |bytes| && TailCapture(bytes, delimiter, offset, o, isProofPart).Some?
    ensures var x := TailCapture(bytes, delimiter, offset, o, isProofPart).value;
      && s.Valid() && bytes == s.Octets(delimiter) && x.body == s.body && x.ignoredBlank == |s.removed|
      && isProofPart(Utf8.Lossy(s.proof.header)) && IsProof(o, s.proof.body, x.proof)
      && (s.removed != [] ==> Expected(x.proof) == Some(o.sha256Hex(s.body)))
  {
    hide ReadBoundary, ReadPart, At, Utf8.Lossy, ContentLength, IsClose, StripSeparator, Strip, Expected, BlankOctet;
    var capture := bytes[offset..];
    var n1 := ReadBoundary(capture, delimiter, 0).value.next;
    var n2 := ReadPart(capture, delimiter, n1).value.next;
    var eol := BoundaryIs(capture, delimiter, 0);
    var proof := PartIs(capture, delimiter, n1);
    var rest := CloseIs(capture, delimiter, n2);
    Pieces(capture, n1, n2, n2, n2);
    assert capture[n2..n2] == [];
    assert capture == (delimiter + eol) + proof.Octets() + (delimiter + rest);
    var separator := SeparatorIs(bytes[..offset]);
    var body := StripSeparator(bytes[..offset]);
    var p := ProofOf(o, ReadPart(capture, delimiter, n1).value.body);
    BlankLinesAreSafe(body, Expected(p), o.sha256Hex);
    var r := Strip(BlankLine, body, Expected(p), o.sha256Hex);
    s := TailShape(body[..r.offset], body[r.offset..], separator, eol, proof, rest);
    assert body == body[..r.offset] + body[r.offset..];
    assert bytes == bytes[..offset] + capture;
  }
}
