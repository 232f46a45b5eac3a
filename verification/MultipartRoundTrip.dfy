/** A capture written as section 5.1.1 of RFC 2046 asks reads back, and when a wrong length breaks that. */
module MultipartRoundTrip {
  import opened Bytes
  import opened Decimals
  import opened Json
  import opened Multipart
  import opened Stripping
  import Text
  import Utf8

  // ----- Occurrences -----

  lemma SubSlice<T>(hay: seq<T>, lo: nat, hi: nat, a: nat, b: nat)
    requires lo <= hi <= |hay| && a <= b <= hi - lo
    ensures hay[lo..hi][a..b] == hay[lo + a..lo + b]
  {
    var x, y := hay[lo..hi][a..b], hay[lo + a..lo + b];
    assert |x| == |y|;
    forall i | 0 <= i < |x|
      ensures x[i] == y[i]
    {
      assert x[i] == hay[lo..hi][a + i];
      assert hay[lo..hi][a + i] == hay[lo + (a + i)];
      assert y[i] == hay[lo + a + i];
    }
  }

  /** Inside a stretch that stands at p, occurrences are those of the stretch. */
  lemma AtWithin<T>(hay: seq<T>, s: seq<T>, p: nat, needle: seq<T>, q: nat)
    requires At(hay, s, p) && q + |needle| <= |s|
    ensures At(hay, needle, p + q) <==> At(s, needle, q)
  {
    SubSlice(hay, p, p + |s|, q, q + |needle|);
    assert p + (q + |needle|) == p + q + |needle|;
  }

  lemma AtParts<T>(hay: seq<T>, a: seq<T>, b: seq<T>, p: nat)
    requires At(hay, a + b, p)
    ensures At(hay, a, p) && At(hay, b, p + |a|)
  {
    assert hay[p..p + |a|] == hay[p..p + |a + b|][..|a|];
    assert hay[p + |a|..p + |a| + |b|] == hay[p..p + |a + b|][|a|..];
  }

  lemma AtIndex<T>(hay: seq<T>, s: seq<T>, p: nat, i: nat)
    requires At(hay, s, p) && i < |s|
    ensures hay[p + i] == s[i]
  {
    assert hay[p..p + |s|][i] == hay[p + i];
  }

  lemma AtItself<T>(s: seq<T>)
    ensures At(s, s, 0)
  {
  }

  // ----- Header blocks -----

  /** A header block: the blank line behind it is the first one, of either kind. */
  predicate OneBlock(h: seq<byte>) {
    IndexOf(h + BLANK_CRLF, BLANK_CRLF, 0) == |h| && IndexOf(h + BLANK_CRLF, BLANK_LF, 0) == -1
  }

  lemma HeaderBack(bytes: seq<byte>, h: seq<byte>, p: nat)
    requires OneBlock(h) && At(bytes, h + BLANK_CRLF, p)
    ensures HeaderEnd(bytes, p) == Some(HeaderSplit(p + |h|, p + |h| + 4))
    ensures bytes[p..p + |h|] == h
  {
    hide At;
    var s := h + BLANK_CRLF;
    AtParts(bytes, h, BLANK_CRLF, p);
    forall q: nat | p <= q < p + |h|
      ensures !At(bytes, BLANK_CRLF, q)
    {
      AtWithin(bytes, s, p, BLANK_CRLF, q - p);
    }
    IndexOfIs(bytes, BLANK_CRLF, p, p + |h|);
    forall q: nat | p <= q < p + |h| + 3
      ensures !At(bytes, BLANK_LF, q)
    {
      AtWithin(bytes, s, p, BLANK_LF, q - p);
    }
    AtExact(bytes, h, p);
  }

  lemma AtExact<T>(hay: seq<T>, s: seq<T>, p: nat)
    requires At(hay, s, p)
    ensures p + |s| <= |hay| && hay[p..p + |s|] == s
  {
  }

  // ----- One part -----

  /**
   What a part's length header must do for the part to be read right: state the true length, or not land in
   front of a boundary line elsewhere while the body holds no boundary line of its own.
   */
  predicate Honest(bytes: seq<byte>, delimiter: seq<byte>, start: nat, body: seq<byte>, length: Option<nat>) {
    length == Some(|body|)
    || (IndexOf(body, [LF] + delimiter, 0) == -1 && !(length.Some? && Lands(bytes, delimiter, start + length.value)))
  }

  lemma LandsBehind(bytes: seq<byte>, delimiter: seq<byte>, end: nat)
    requires At(bytes, [CR, LF] + delimiter, end)
    ensures Lands(bytes, delimiter, end) && LineEnding(bytes, end) == end + 2
  {
    AtParts(bytes, [CR, LF], delimiter, end);
    AtIndex(bytes, [CR, LF], end, 0);
    AtIndex(bytes, [CR, LF], end, 1);
  }

  lemma FirstBehind(bytes: seq<byte>, delimiter: seq<byte>, start: nat, body: seq<byte>)
    requires At(bytes, body + ([CR, LF] + delimiter), start) && CR !in delimiter
    requires IndexOf(body, [LF] + delimiter, 0) == -1
    ensures IndexOf(bytes, [LF] + delimiter, start) == start + |body| + 1 && bytes[start + |body|] == CR
  {
    hide At, IndexOf;
    var needle := [LF] + delimiter;
    AtParts(bytes, body, [CR, LF] + delimiter, start);
    assert [CR, LF] + delimiter == [CR] + needle;
    AtParts(bytes, [CR], needle, start + |body|);
    AtIndex(bytes, [CR], start + |body|, 0);
    forall q: nat | start <= q < start + |body| + 1
      ensures !At(bytes, needle, q)
    {
      var k := q - start;
      if k + |needle| <= |body| {
        AtWithin(bytes, body, start, needle, k);
      } else {
        AtAnywhere(bytes, needle, q, |body| - k);
        assert needle[|body| - k] != CR;
      }
    }
    IndexOfIs(bytes, needle, start, start + |body| + 1);
  }

  lemma AtAnywhere<T>(hay: seq<T>, needle: seq<T>, q: nat, i: nat)
    requires i < |needle|
    ensures At(hay, needle, q) ==> q + i < |hay| && hay[q + i] == needle[i]
  {
    assert At(hay, needle, q) ==> hay[q..q + |needle|][i] == hay[q + i];
  }

  /** A body in front of CRLF and a boundary line is cut exactly there if and only if its length is honest. */
  lemma EndIffHonest(bytes: seq<byte>, delimiter: seq<byte>, start: nat, body: seq<byte>, length: Option<nat>)
    requires At(bytes, body + ([CR, LF] + delimiter), start) && CR !in delimiter
    ensures start <= |bytes|
    ensures PartEnd(bytes, delimiter, start, length) == Some(Cut(start + |body|, start + |body| + 2))
            <==> Honest(bytes, delimiter, start, body, length)
  {
    hide At, LineEnding, Lands;
    AtExact(bytes, body + ([CR, LF] + delimiter), start);
    AtParts(bytes, body, [CR, LF] + delimiter, start);
    LandsBehind(bytes, delimiter, start + |body|);
    var needle := [LF] + delimiter;
    var k := IndexOf(body, needle, 0);
    if k == -1 {
      FirstBehind(bytes, delimiter, start, body);
    } else {
      InsideFound(bytes, body, start, needle);
    }
  }

  lemma InsideFound(bytes: seq<byte>, body: seq<byte>, start: nat, needle: seq<byte>)
    requires At(bytes, body, start) && IndexOf(body, needle, 0) != -1 && needle != []
    ensures start <= IndexOf(bytes, needle, start) < start + |body|
  {
    var k := IndexOf(body, needle, 0);
    FoundInside(body, needle, 0);
    AtWithin(bytes, body, start, needle, k);
  }

  function LengthOf(h: seq<byte>): Option<nat> {
    ContentLength(Utf8.Lossy(h))
  }

  function Block(h: seq<byte>): seq<byte> {
    h + BLANK_CRLF
  }

  function Separator(delimiter: seq<byte>): seq<byte> {
    [CR, LF] + delimiter
  }

  /** A written part: header block, blank line, body. */
  lemma PartBack(bytes: seq<byte>, delimiter: seq<byte>, p: nat, h: seq<byte>, body: seq<byte>)
    requires OneBlock(h) && CR !in delimiter
    requires At(bytes, Block(h) + (body + Separator(delimiter)), p)
    ensures ReadPart(bytes, delimiter, p) == Some(Part(Utf8.Lossy(h), body, p + |h| + 4 + |body| + 2))
            <==> Honest(bytes, delimiter, p + |h| + 4, body, LengthOf(h))
  {
    hide At, OneBlock, Honest, PartEnd, HeaderEnd, ContentLength, Utf8.Lossy;
    AtParts(bytes, Block(h), body + Separator(delimiter), p);
    HeaderBack(bytes, h, p);
    var start := p + |h| + 4;
    EndIffHonest(bytes, delimiter, start, body, LengthOf(h));
    AtParts(bytes, body, Separator(delimiter), start);
    AtExact(bytes, body, start);
    var c := PartEnd(bytes, delimiter, start, LengthOf(h));
    if c.Some? && c.value != Cut(start + |body|, start + |body| + 2) {
      CutShort(bytes, start, c.value, body);
    }
  }

  lemma CutShort(bytes: seq<byte>, start: nat, c: Cut, body: seq<byte>)
    requires start <= c.end <= |bytes|
    ensures bytes[start..c.end] == body ==> c.end == start + |body|
  {
  }

  // ----- Lengths that are wrong -----

  /** A length that is too short, or reaches beyond the capture, or is missing, does no harm by itself. */
  lemma StaleLengthsAreHarmless(bytes: seq<byte>, delimiter: seq<byte>, start: nat, body: seq<byte>,
                                length: Option<nat>)
    requires At(bytes, body + Separator(delimiter), start) && CR !in delimiter
    requires IndexOf(body, [LF] + delimiter, 0) == -1
    requires length.None? || length.value <= |body| || start + length.value > |bytes|
    ensures Honest(bytes, delimiter, start, body, length)
  {
    hide At;
    FirstBehind(bytes, delimiter, start, body);
    if length.Some? && Lands(bytes, delimiter, start + length.value) {
      LandsNeedsMarker(bytes, delimiter, start + length.value);
    }
  }

  lemma LandsNeedsMarker(bytes: seq<byte>, delimiter: seq<byte>, end: nat)
    requires Lands(bytes, delimiter, end)
    ensures At(bytes, [LF] + delimiter, end) || At(bytes, [LF] + delimiter, end + 1)
  {
    AtCons(bytes, LF, delimiter, end);
    AtCons(bytes, LF, delimiter, end + 1);
  }

  /** A length that is one too long always lands, between CR and LF, and the body comes back with that CR. */
  lemma OneTooLongMisleads(bytes: seq<byte>, delimiter: seq<byte>, p: nat, h: seq<byte>, body: seq<byte>)
    requires OneBlock(h) && LengthOf(h) == Some(|body| + 1)
    requires At(bytes, Block(h) + (body + Separator(delimiter)), p)
    ensures ReadPart(bytes, delimiter, p) == Some(Part(Utf8.Lossy(h), body + [CR], p + |h| + 4 + |body| + 2))
  {
    hide At, OneBlock, HeaderEnd, ContentLength, Utf8.Lossy, IndexOf;
    AtParts(bytes, Block(h), body + Separator(delimiter), p);
    HeaderBack(bytes, h, p);
    var start := p + |h| + 4;
    Regroup(body, CR, LF, delimiter);
    assert body + [CR] + [LF] + delimiter == (body + [CR]) + ([LF] + delimiter);
    AtParts(bytes, body + [CR], [LF] + delimiter, start);
    AtParts(bytes, [LF], delimiter, start + |body| + 1);
    AtIndex(bytes, [LF], start + |body| + 1, 0);
    AtExact(bytes, body + [CR], start);
  }

  // ----- The whole capture -----

  predicate CleanBoundary(boundary: string) {
    boundary != "" && '\r' !in boundary && '\n' !in boundary
  }

  /** What may stand behind the closing boundary line: nothing, or a line ending and anything. */
  predicate Epilogue(tail: seq<byte>) {
    tail == [] || LineEnding(tail, 0) != -1
  }

  /** A part and the boundary line's delimiter behind it. */
  function Body(h: seq<byte>, delimiter: seq<byte>, content: seq<byte>): seq<byte> {
    Block(h) + (content + Separator(delimiter))
  }

  /** Two parts as an RFC 2046 writer sends them, starting at the boundary line. */
  function Written(delimiter: seq<byte>, h1: seq<byte>, body: seq<byte>, h2: seq<byte>, proof: seq<byte>,
                   tail: seq<byte>): seq<byte> {
    delimiter + (CRLF + (Body(h1, delimiter, body) + (CRLF + (Body(h2, delimiter, proof) + (DASHES + tail)))))
  }

  lemma PlainLine(bytes: seq<byte>, delimiter: seq<byte>, p: nat)
    requires At(bytes, delimiter, p) && At(bytes, CRLF, p + |delimiter|)
    ensures ReadBoundary(bytes, delimiter, p) == Some(BoundaryLine(false, p + |delimiter| + 2))
  {
    AtIndex(bytes, CRLF, p + |delimiter|, 0);
    AtIndex(bytes, CRLF, p + |delimiter|, 1);
  }

  lemma ClosingLine(bytes: seq<byte>, delimiter: seq<byte>, p: nat, tail: seq<byte>)
    requires At(bytes, delimiter, p) && At(bytes, DASHES + tail, p + |delimiter|) && p + |delimiter| + 2 + |tail| == |bytes|
    requires Epilogue(tail)
    ensures ReadBoundary(bytes, delimiter, p).Some? && ReadBoundary(bytes, delimiter, p).value.closing
  {
    var q := p + |delimiter|;
    AtParts(bytes, DASHES, tail, q);
    AtIndex(bytes, DASHES, q, 0);
    AtIndex(bytes, DASHES, q, 1);
    if tail != [] {
      AtIndex(bytes, tail, q + 2, 0);
      if |tail| > 1 {
        AtIndex(bytes, tail, q + 2, 1);
      }
      assert LineEnding(bytes, q + 2) != -1;
    }
  }

  /** Positions of the two bodies. */
  function FirstBodyAt(delimiter: seq<byte>, h1: seq<byte>): nat {
    |delimiter| + 2 + |h1| + 4
  }

  function SecondBodyAt(delimiter: seq<byte>, h1: seq<byte>, body: seq<byte>, h2: seq<byte>): nat {
    FirstBodyAt(delimiter, h1) + |body| + 2 + |delimiter| + 2 + |h2| + 4
  }

  /** A written part at p is read right, and the boundary line behind it is met. */
  lemma PartThenLine(bytes: seq<byte>, delimiter: seq<byte>, p: nat, h: seq<byte>, content: seq<byte>,
                     rest: seq<byte>) returns (next: nat)
    requires OneBlock(h) && CR !in delimiter && At(bytes, Body(h, delimiter, content) + rest, p)
    requires Honest(bytes, delimiter, p + |h| + 4, content, LengthOf(h))
    ensures ReadPart(bytes, delimiter, p) == Some(Part(Utf8.Lossy(h), content, next))
    ensures next == p + |h| + 4 + |content| + 2
    ensures At(bytes, delimiter, next) && At(bytes, rest, next + |delimiter|)
  {
    hide At, OneBlock, Honest, ReadPart, LengthOf, Utf8.Lossy;
    next := p + |h| + 4 + |content| + 2;
    AtParts(bytes, Body(h, delimiter, content), rest, p);
    PartBack(bytes, delimiter, p, h, content);
    AtParts(bytes, Block(h), content + Separator(delimiter), p);
    AtParts(bytes, content, Separator(delimiter), p + |h| + 4);
    AtParts(bytes, [CR, LF], delimiter, p + |h| + 4 + |content|);
  }

  lemma LineThen(bytes: seq<byte>, delimiter: seq<byte>, p: nat, rest: seq<byte>)
    requires At(bytes, delimiter, p) && At(bytes, CRLF + rest, p + |delimiter|)
    ensures ReadBoundary(bytes, delimiter, p) == Some(BoundaryLine(false, p + |delimiter| + 2))
    ensures At(bytes, rest, p + |delimiter| + 2)
  {
    hide At, ReadBoundary;
    AtParts(bytes, CRLF, rest, p + |delimiter|);
    PlainLine(bytes, delimiter, p);
  }

  /** The body and the proof part read back from a written capture. */
  lemma TwoPartsBack(delimiter: seq<byte>, h1: seq<byte>, body: seq<byte>, h2: seq<byte>, proof: seq<byte>,
                     tail: seq<byte>, o: Oracle)
    requires CR !in delimiter && OneBlock(h1) && OneBlock(h2) && Epilogue(tail)
    requires var bytes := Written(delimiter, h1, body, h2, proof, tail);
      && Honest(bytes, delimiter, FirstBodyAt(delimiter, h1), body, LengthOf(h1))
      && Honest(bytes, delimiter, SecondBodyAt(delimiter, h1, body, h2), proof, LengthOf(h2))
    ensures TwoParts(Written(delimiter, h1, body, h2, proof, tail), delimiter, o)
        == Some(Captured(body, ProofOf(o, proof), 0))
  {
    hide At, OneBlock, Honest, ReadPart, ReadBoundary, LengthOf, Epilogue, Utf8.Lossy, ProofOf, Body;
    var bytes := Written(delimiter, h1, body, h2, proof, tail);
    AtItself(bytes);
    var rest2 := DASHES + tail;
    var rest1 := CRLF + (Body(h2, delimiter, proof) + rest2);
    var rest0 := CRLF + (Body(h1, delimiter, body) + rest1);
    assert bytes == delimiter + rest0;
    AtParts(bytes, delimiter, rest0, 0);
    LineThen(bytes, delimiter, 0, Body(h1, delimiter, body) + rest1);
    var p2 := PartThenLine(bytes, delimiter, |delimiter| + 2, h1, body, rest1);
    LineThen(bytes, delimiter, p2, Body(h2, delimiter, proof) + rest2);
    var p3 := PartThenLine(bytes, delimiter, p2 + |delimiter| + 2, h2, proof, rest2);
    BodyLength(h1, delimiter, body);
    BodyLength(h2, delimiter, proof);
    ClosingLine(bytes, delimiter, p3, tail);
  }

  lemma BodyLength(h: seq<byte>, delimiter: seq<byte>, content: seq<byte>)
    ensures |Body(h, delimiter, content)| == |h| + 4 + |content| + 2 + |delimiter|
  {
  }

  lemma DelimiterIs(boundary: string)
    requires CleanBoundary(boundary)
    ensures CR !in Delimiter(boundary) && LF !in Delimiter(boundary)
    ensures DASHES <= Delimiter(boundary) && Utf8.Lossy(Delimiter(boundary)) == "--" + boundary
  {
    hide Utf8.Encode, Utf8.Lossy;
    Utf8.OctetOf("--" + boundary, CR);
    Utf8.OctetOf("--" + boundary, LF);
    Utf8.EncodeConcat("--", boundary);
    Utf8.LossyOfEncode("--" + boundary);
    EncodedDashes();
  }

  lemma EncodedDashes()
    ensures Utf8.Encode("--") == DASHES
  {
    assert "--"[1..] == "-" && "-"[1..] == "";
  }

  /** The boundary of a text that starts with its boundary line. */
  lemma FirstBoundaryBack(boundary: string, rest: seq<byte>)
    requires CleanBoundary(boundary)
    ensures FirstBoundary(Delimiter(boundary) + CRLF + rest)
            == if EndsWith("--" + boundary, "--") then None else Some(First(boundary, 0))
  {
    hide Utf8.Lossy, Delimiter;
    DelimiterIs(boundary);
    var d := Delimiter(boundary);
    var bytes := d + CRLF + rest;
    assert DASHES <= bytes;
    assert bytes == (d + [CR]) + [LF] + rest;
    Text.FirstAt(d + [CR], LF, rest);
    assert bytes[0..|d| + 1] == d + [CR] + [];
    Utf8.LossyAround(d, CR, []);
    Utf8.LossyOfEmpty();
    var line := "--" + boundary;
    assert Utf8.Lossy(bytes[0..|d| + 1]) == line + ['\r'];
    assert Text.StripCr(line + ['\r'], '\r') == line;
    assert line[2..] == boundary;
  }

  /**
   The round trip. A two-part capture with honest lengths parses back to exactly the body and the proof,
   when the boundary is declared or can be read from the first line. If it is not declared and its line ends
   with two dashes, nothing is parsed.
   */
  lemma CaptureParsesBack(boundary: string, h1: seq<byte>, body: seq<byte>, h2: seq<byte>, proof: seq<byte>,
                          tail: seq<byte>,
                          declared: Option<string>, o: Oracle, isProofPart: string -> bool)
    requires CleanBoundary(boundary) && OneBlock(h1) && OneBlock(h2) && Epilogue(tail)
    requires declared == None || declared == Some(boundary)
    requires var d := Delimiter(boundary);
      && Honest(Written(d, h1, body, h2, proof, tail), d, FirstBodyAt(d, h1), body, LengthOf(h1))
      && Honest(Written(d, h1, body, h2, proof, tail), d, SecondBodyAt(d, h1, body, h2), proof, LengthOf(h2))
    ensures Parse(Written(Delimiter(boundary), h1, body, h2, proof, tail), declared, o, isProofPart)
            == if declared == None && EndsWith("--" + boundary, "--") then None else Some(Captured(body, ProofOf(o, proof), 0))
  {
    hide Delimiter, OneBlock, Honest, Epilogue, LengthOf, TwoParts, TailCapture, FirstBoundary, ProofOf, EndsWith, Body;
    var d := Delimiter(boundary);
    var bytes := Written(d, h1, body, h2, proof, tail);
    DelimiterIs(boundary);
    TwoPartsBack(d, h1, body, h2, proof, tail, o);
    var rest := Body(h1, d, body) + (CRLF + (Body(h2, d, proof) + (DASHES + tail)));
    FirstBoundaryBack(boundary, rest);
    assert bytes == d + CRLF + rest;
    assert bytes[0..] == bytes;
  }

  /** With correct lengths that is so for every body and every proof, boundary lines in them or not. */
  lemma CorrectLengthsParseBack(boundary: string, h1: seq<byte>, body: seq<byte>, h2: seq<byte>, proof: seq<byte>,
                                tail: seq<byte>,
                                o: Oracle, isProofPart: string -> bool)
    requires CleanBoundary(boundary) && OneBlock(h1) && OneBlock(h2) && Epilogue(tail)
    requires LengthOf(h1) == Some(|body|) && LengthOf(h2) == Some(|proof|)
    ensures Parse(Written(Delimiter(boundary), h1, body, h2, proof, tail), Some(boundary), o, isProofPart)
            == Some(Captured(body, ProofOf(o, proof), 0))
  {
    hide Delimiter, OneBlock, Epilogue, LengthOf, Parse, ProofOf, Written;
    CaptureParsesBack(boundary, h1, body, h2, proof, tail, Some(boundary), o, isProofPart);
  }

  // ----- Header blocks as they are written -----

  predicate GoodLine(l: string) {
    l != "" && '\r' !in l && '\n' !in l
  }

  predicate GoodLines(lines: seq<string>) {
    forall i :: 0 <= i < |lines| ==> GoodLine(lines[i])
  }

  function HeaderText(lines: seq<string>): string {
    Text.Join(lines, "\r\n")
  }

  /** Every LF is followed, still inside, by something other than a line ending. */
  predicate Tidy(s: seq<byte>) {
    forall i :: 0 <= i < |s| && s[i] == LF ==> i + 1 < |s| && s[i + 1] != CR && s[i + 1] != LF
  }

  lemma TidyIsOneBlock(h: seq<byte>)
    requires Tidy(h)
    ensures OneBlock(h)
  {
    hide At;
    var s := h + BLANK_CRLF;
    AtItself(s);
    AtParts(s, h, BLANK_CRLF, 0);
    forall q: nat | q < |h|
      ensures !At(s, BLANK_CRLF, q)
    {
      AtAnywhere(s, BLANK_CRLF, q, 1);
      AtAnywhere(s, BLANK_CRLF, q, 2);
    }
    IndexOfIs(s, BLANK_CRLF, 0, |h|);
    forall q: nat
      ensures !At(s, BLANK_LF, q)
    {
      AtAnywhere(s, BLANK_LF, q, 0);
      AtAnywhere(s, BLANK_LF, q, 1);
    }
  }

  lemma FirstOctet(s: string)
    requires s != "" && s[0] != '\r' && s[0] != '\n'
    ensures Utf8.Encode(s) != [] && Utf8.Encode(s)[0] != CR && Utf8.Encode(s)[0] != LF
  {
  }

  lemma EncodedCrLf()
    ensures Utf8.Encode("\r\n") == CRLF
  {
    assert "\r\n"[1..] == "\n" && "\n"[1..] == "";
  }

  lemma TidyLine(line: seq<byte>, rest: seq<byte>)
    requires LF !in line && Tidy(rest) && rest != [] && rest[0] != CR && rest[0] != LF
    ensures Tidy(line + CRLF + rest)
  {
    var s := line + CRLF + rest;
    assert forall i :: 0 <= i < |line| ==> s[i] == line[i];
    forall i | 0 <= i < |s| && s[i] == LF
      ensures i + 1 < |s| && s[i + 1] != CR && s[i + 1] != LF
    {
      if i == |line| + 1 {
        assert s[i + 1] == rest[0];
      } else if i > |line| + 1 {
        var k := i - |line| - 2;
        assert rest[k] == LF;
        assert s[i + 1] == rest[k + 1];
      }
    }
  }

  lemma {:induction false} LinesAreTidy(lines: seq<string>)
    requires GoodLines(lines)
    ensures Tidy(Utf8.Encode(HeaderText(lines)))
    ensures lines != [] ==> HeaderText(lines) != "" && HeaderText(lines)[0] == lines[0][0]
    decreases |lines|
  {
    hide Utf8.Encode;
    if lines == [] {
      EncodedNothing();
    } else {
      Utf8.OctetOf(lines[0], LF);
      if |lines| > 1 {
        var rest := HeaderText(lines[1..]);
        LinesAreTidy(lines[1..]);
        FirstOctet(rest);
        Utf8.EncodeConcat(lines[0] + "\r\n", rest);
        Utf8.EncodeConcat(lines[0], "\r\n");
        EncodedCrLf();
        TidyLine(Utf8.Encode(lines[0]), Utf8.Encode(rest));
      }
    }
  }

  lemma EncodedNothing()
    ensures Utf8.Encode("") == []
  {
  }

  lemma SplitFront(line: string, rest: string)
    requires '\r' !in line && '\n' !in line
    ensures SplitLines(line + "\r\n" + rest) == [line] + SplitLines(rest)
  {
    var front := line + ['\r'];
    var text := front + ['\n'] + rest;
    assert line + "\r\n" + rest == text;
    Text.FirstAt(front, '\n', rest);
    assert text[..|front|] == front && text[|front| + 1..] == rest;
    assert Text.StripCr(front, '\r') == line;
  }

  lemma SplitNothing(line: string)
    requires '\n' !in line
    ensures SplitLines(line) == [line]
  {
    Text.NotFound(line, '\n');
  }

  lemma {:induction false} SplitOfJoin(lines: seq<string>)
    requires lines != [] && GoodLines(lines)
    ensures SplitLines(HeaderText(lines)) == lines
    decreases |lines|
  {
    hide SplitLines;
    if |lines| == 1 {
      SplitNothing(lines[0]);
    } else {
      SplitFront(lines[0], HeaderText(lines[1..]));
      SplitOfJoin(lines[1..]);
      assert lines == [lines[0]] + lines[1..];
    }
  }

  function LengthHeader(n: nat): string {
    "Content-Length: " + Digits(n)
  }

  lemma LengthHeaderIsRead(n: nat)
    ensures LengthLine(LengthHeader(n)) == Some(n)
  {
    hide Digits;
    var digits := Digits(n);
    var line := LengthHeader(n);
    var name := line[..|LENGTH_NAME|];
    assert name == "Content-Length:";
    assert Lower(name) == LENGTH_NAME;
    assert line[|LENGTH_NAME|..] == " " + digits;
    assert (" " + digits)[1..] == digits;
    assert Text.JsTrimStart(" " + digits) == digits;
    assert Text.JsTrimEnd(digits) == digits;
    DigitsValue(n);
  }

  lemma {:induction false} FirstLengthIs(lines: seq<string>, i: nat)
    requires i < |lines| && LengthLine(lines[i]).Some?
    requires forall j :: 0 <= j < i ==> LengthLine(lines[j]).None?
    ensures FirstLength(lines) == LengthLine(lines[i])
    decreases i
  {
    hide LengthLine;
    if i > 0 {
      assert forall j :: 0 <= j < i - 1 ==> lines[1..][j] == lines[j + 1];
      FirstLengthIs(lines[1..], i - 1);
    }
  }

  /** Header lines joined by CRLF are one block, and the first length line among them is the length. */
  lemma HeaderLinesWork(lines: seq<string>, i: nat, n: nat)
    requires GoodLines(lines) && i < |lines| && lines[i] == LengthHeader(n)
    requires forall j :: 0 <= j < i ==> LengthLine(lines[j]).None?
    ensures OneBlock(Utf8.Encode(HeaderText(lines))) && LengthOf(Utf8.Encode(HeaderText(lines))) == Some(n)
  {
    hide Utf8.Encode, Utf8.Lossy, GoodLine, OneBlock, LengthLine, LengthHeader, HeaderText, Tidy;
    LinesAreTidy(lines);
    TidyIsOneBlock(Utf8.Encode(HeaderText(lines)));
    Utf8.LossyOfEncode(HeaderText(lines));
    SplitOfJoin(lines);
    LengthHeaderIsRead(n);
    FirstLengthIs(lines, i);
  }

  // ----- A raw body in front of a proof part -----

  /** A body followed by a separator line ending and one proof part. */
  function WrittenTail(delimiter: seq<byte>, h: seq<byte>, proof: seq<byte>, tail: seq<byte>): seq<byte> {
    delimiter + (CRLF + (Body(h, delimiter, proof) + (DASHES + tail)))
  }

  /** What the first-boundary search makes of the line it found. */
  lemma FirstBoundaryFrom(bytes: seq<byte>, start: nat, lineEnd: nat, boundary: string)
    requires FirstStart(bytes) == start && IndexOf(bytes, [LF], start) == lineEnd && start <= lineEnd <= |bytes|
    requires Utf8.Lossy(bytes[start..lineEnd]) == "--" + boundary + ['\r'] && !EndsWith("--" + boundary, "--")
    ensures FirstBoundary(bytes) == Some(First(boundary, start))
  {
    hide FirstStart, Utf8.Lossy, EndsWith;
    var line := "--" + boundary;
    assert Text.StripCr(line + ['\r'], '\r') == line;
    assert line[2..] == boundary;
  }

  /** The first boundary line behind a body without lines that start with two dashes. */
  lemma FirstBoundaryBehind(boundary: string, body: seq<byte>, rest: seq<byte>)
    requires CleanBoundary(boundary) && !EndsWith("--" + boundary, "--")
    requires !(DASHES <= body) && IndexOf(body, [LF] + DASHES, 0) == -1
    ensures FirstBoundary(body + CRLF + (Delimiter(boundary) + (CRLF + rest))) == Some(First(boundary, |body| + 2))
  {
    hide Utf8.Lossy, Delimiter, At, EndsWith, FirstStart, FirstBoundary, IndexOf, CleanBoundary;
    DelimiterIs(boundary);
    var d := Delimiter(boundary);
    var start := |body| + 2;
    StartBehind(body, d, CRLF + rest);
    LineEndIs(body + CRLF, d, rest);
    Utf8.LossyAround(d, CR, []);
    Utf8.LossyOfEmpty();
    LineSlice(body + CRLF, d, rest);
    FirstBoundaryFrom(body + CRLF + (d + (CRLF + rest)), start, start + |d| + 1, boundary);
  }

  lemma LineSlice(pre: seq<byte>, d: seq<byte>, rest: seq<byte>)
    ensures (pre + (d + (CRLF + rest)))[|pre|..|pre| + |d| + 1] == d + [CR] + []
  {
  }

  lemma StartBehind(body: seq<byte>, d: seq<byte>, rest: seq<byte>)
    requires DASHES <= d && !(DASHES <= body) && IndexOf(body, [LF] + DASHES, 0) == -1
    ensures FirstStart(body + CRLF + (d + rest)) == |body| + 2
  {
    hide At, IndexOf;
    var bytes := body + CRLF + (d + rest);
    DashesBehind(body, d, rest);
    AtItself(bytes);
    AtParts(bytes, body + ([CR, LF] + DASHES), d[2..] + rest, 0);
    FirstBehind(bytes, DASHES, 0, body);
    NoDashesInFront(body, d + rest);
  }

  lemma DashesBehind(body: seq<byte>, d: seq<byte>, rest: seq<byte>)
    requires DASHES <= d
    ensures body + CRLF + (d + rest) == body + ([CR, LF] + DASHES) + (d[2..] + rest)
  {
    assert d == DASHES + d[2..];
  }

  lemma NoDashesInFront(body: seq<byte>, rest: seq<byte>)
    requires !(DASHES <= body)
    ensures !(DASHES <= body + CRLF + rest)
  {
    var bytes := body + CRLF + rest;
    assert |body| >= 2 ==> bytes[..2] == body[..2];
    assert |body| == 1 ==> bytes[1] == CR;
    assert |body| == 0 ==> bytes[0] == CR;
  }

  lemma FoundAfter<T>(pre: seq<T>, a: seq<T>, c: T, b: seq<T>)
    requires c !in a
    ensures IndexOf(pre + (a + [c] + b), [c], |pre|) == |pre| + |a|
  {
    hide At;
    var s := a + [c] + b;
    var bytes := pre + s;
    Text.AtOne(bytes, c);
    assert bytes[|pre| + |a|] == s[|a|] == c;
    forall q: nat | |pre| <= q < |pre| + |a|
      ensures !At(bytes, [c], q)
    {
      assert bytes[q] == a[q - |pre|];
    }
    IndexOfIs(bytes, [c], |pre|, |pre| + |a|);
  }

  lemma LineEndIs(pre: seq<byte>, d: seq<byte>, rest: seq<byte>)
    requires LF !in d
    ensures IndexOf(pre + (d + (CRLF + rest)), [LF], |pre|) == |pre| + |d| + 1
  {
    hide IndexOf, At;
    assert CRLF == [CR, LF];
    Regroup(d, CR, LF, rest);
    LastNotIn(d, CR, LF);
    FoundAfter(pre, d + [CR], LF, rest);
  }

  lemma Regroup<T>(a: seq<T>, x: T, y: T, b: seq<T>)
    ensures a + [x] + [y] + b == a + ([x, y] + b)
    ensures |a + [x]| == |a| + 1
  {
  }

  lemma LastNotIn<T>(a: seq<T>, x: T, c: T)
    requires c !in a && x != c
    ensures c !in a + [x]
  {
  }

  lemma TailBack(bytes: seq<byte>, body: seq<byte>, delimiter: seq<byte>, h: seq<byte>, proof: seq<byte>,
                 tail: seq<byte>, o: Oracle, isProofPart: string -> bool)
    requires CR !in delimiter && OneBlock(h) && Epilogue(tail) && isProofPart(Utf8.Lossy(h))
    requires bytes == body + CRLF + WrittenTail(delimiter, h, proof, tail)
    requires Honest(WrittenTail(delimiter, h, proof, tail), delimiter, FirstBodyAt(delimiter, h), proof, LengthOf(h))
    ensures var r := Strip(BlankLine, body, Expected(ProofOf(o, proof)), o.sha256Hex);
      && r.offset <= |body|
      && TailCapture(bytes, delimiter, |body| + 2, o, isProofPart)
          == Some(Captured(body[r.offset..], ProofOf(o, proof), r.offset))
  {
    hide At, OneBlock, Honest, ReadPart, ReadBoundary, LengthOf, Epilogue, Utf8.Lossy, ProofOf, Body, Strip, Expected;
    var capture := WrittenTail(delimiter, h, proof, tail);
    assert bytes[|body| + 2..] == capture;
    assert bytes[..|body| + 2] == body + CRLF;
    assert StripSeparator(body + CRLF) == body;
    AtItself(capture);
    var rest1 := Body(h, delimiter, proof) + (DASHES + tail);
    AtParts(capture, delimiter, CRLF + rest1, 0);
    LineThen(capture, delimiter, 0, rest1);
    var p := PartThenLine(capture, delimiter, |delimiter| + 2, h, proof, DASHES + tail);
    BodyLength(h, delimiter, proof);
    ClosingLine(capture, delimiter, p, tail);
    BlankLinesAreSafe(body, Expected(ProofOf(o, proof)), o.sha256Hex);
  }

  /**
   A raw body without lines that start with two dashes, followed by one proof part: the proof comes back and
   so does the body, except that leading blank lines are removed when - and only when - that reaches the
   signed digest. A body with the signed digest comes back exactly.
   */
  lemma TailParsesBack(boundary: string, body: seq<byte>, h: seq<byte>, proof: seq<byte>, tail: seq<byte>,
                       declared: Option<string>, o: Oracle, isProofPart: string -> bool)
    requires CleanBoundary(boundary) && !EndsWith("--" + boundary, "--") && OneBlock(h) && Epilogue(tail)
    requires isProofPart(Utf8.Lossy(h))
    requires declared == None || declared == Some(boundary)
    requires !(DASHES <= body) && IndexOf(body, [LF] + DASHES, 0) == -1
    requires Honest(WrittenTail(Delimiter(boundary), h, proof, tail), Delimiter(boundary), FirstBodyAt(Delimiter(boundary), h), proof, LengthOf(h))
    ensures var bytes := body + CRLF + WrittenTail(Delimiter(boundary), h, proof, tail);
      var expected := Expected(ProofOf(o, proof));
      var r := Strip(BlankLine, body, expected, o.sha256Hex);
      && r.offset <= |body|
      && Parse(bytes, declared, o, isProofPart) == Some(Captured(body[r.offset..], ProofOf(o, proof), r.offset))
      && (expected == Some(o.sha256Hex(body)) ==> r.offset == 0)
      && (r.offset > 0 ==> expected == Some(o.sha256Hex(body[r.offset..])))
  {
    hide Delimiter, OneBlock, Honest, Epilogue, LengthOf, TwoParts, TailCapture, FirstBoundary, ProofOf, EndsWith,
         Body, Expected, Utf8.Lossy;
    var d := Delimiter(boundary);
    var rest := Body(h, d, proof) + (DASHES + tail);
    var bytes := body + CRLF + WrittenTail(d, h, proof, tail);
    DelimiterIs(boundary);
    FirstBoundaryBehind(boundary, body, rest);
    assert FirstBoundary(bytes) == Some(First(boundary, |body| + 2));
    TailBack(bytes, body, d, h, proof, tail, o, isProofPart);
    BlankLinesAreSafe(body, Expected(ProofOf(o, proof)), o.sha256Hex);
  }
}
