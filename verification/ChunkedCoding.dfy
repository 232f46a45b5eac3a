/** The chunked transfer coding (section 7.1 of RFC 9112) as a function of the whole stream. */
module ChunkedCoding {
  import opened Bytes
  import opened Text
  import Utf8

  const MAX_RESP: nat := 0x400_0000
  const USIZE: nat := 0x1_0000_0000_0000_0000

  // ----- Chunk sizes -----

  function HexDigit(c: char): Option<nat> {
    if '0' <= c <= '9' then Some(c as int - '0' as int)
    else if 'a' <= c <= 'f' then Some(c as int - 'a' as int + 10)
    else if 'A' <= c <= 'F' then Some(c as int - 'A' as int + 10)
    else None
  }

  /** The value of a run of hexadecimal digits. */
  function HexValue(s: string): Option<nat> {
    if s == "" then Some(0)
    else
      var high := HexValue(s[..|s| - 1]);
      var low := HexDigit(s[|s| - 1]);
      if high.None? || low.None? then None else Some(high.value * 16 + low.value)
  }

  /** `usize::from_str_radix(_, 16)`: an optional plus sign, at least one digit, no overflow. */
  function ParseHex(s: string): Option<nat> {
    var digits := if "+" <= s then s[1..] else s;
    var v := HexValue(digits);
    if digits == "" || v.None? || v.value >= USIZE then None else v
  }

  function Before(s: string, c: char): (t: string)
    ensures t <= s
  {
    if s == "" || s[0] == c then "" else [s[0]] + Before(s[1..], c)
  }

  /** The size on a chunk line, extensions ignored. */
  function ChunkSize(line: seq<byte>): Option<nat> {
    ParseHex(Trim(Before(Trim(Utf8.Lossy(line)), ';')))
  }

  // ----- Decoding -----

  datatype End = Done | Broken | Overflow
  datatype Decoded = Decoded(body: seq<byte>, end: End)

  function AfterCrlf(b: seq<byte>): (r: seq<byte>)
    ensures |r| <= |b|
  {
    if |b| >= 2 && b[..2] == CRLF then b[2..] else b
  }

  /**
   The bytes forwarded and how the stream ends, from the whole stream. `Overflow` marks a size for which the
   unsigned 64-bit count of the implementation wraps.
   */
  function Dechunk(s: seq<byte>, total: nat): Decoded
    decreases |s|
  {
    var p := IndexOf(s, CRLF, 0);
    if p == -1 then Decoded([], Broken)
    else
      var size := ChunkSize(s[..p]);
      if size.None? then Decoded([], Broken)
      else if size.value == 0 then Decoded([], Done)
      else if total + size.value >= USIZE then Decoded([], Overflow)
      else if total + size.value > MAX_RESP then Decoded([], Broken)
      else
        var rest := s[p + 2..];
        var take := if size.value <= |rest| then size.value else |rest|;
        var r := Dechunk(AfterCrlf(rest[take..]), total + size.value);
        Decoded(rest[..take] + r.body, r.end)
  }

  /** Up to such a size the forwarded body never exceeds the response limit. */
  lemma {:induction false} BodyWithinLimit(s: seq<byte>, total: nat)
    requires total <= MAX_RESP
    ensures total + |Dechunk(s, total).body| <= MAX_RESP
    decreases |s|
  {
    hide ChunkSize, IndexOf, AfterCrlf;
    var p := IndexOf(s, CRLF, 0);
    if p != -1 {
      var size := ChunkSize(s[..p]);
      if size.Some? && size.value != 0 && total + size.value <= MAX_RESP {
        var rest := s[p + 2..];
        var take := if size.value <= |rest| then size.value else |rest|;
        BodyWithinLimit(AfterCrlf(rest[take..]), total + size.value);
      }
    }
  }

  // ----- Encoding -----

  function HexChar(d: nat): (c: char)
    requires d < 16
    ensures HexDigit(c) == Some(d) && !RustSpace(c) && c != ';' && c != '+' && c as int < 0x80 && c != '\r'
  {
    if d < 10 then (d + '0' as int) as char else (d - 10 + 'a' as int) as char
  }

  function Hex(n: nat): (s: string)
    ensures s != ""
    ensures forall i :: 0 <= i < |s| ==> !RustSpace(s[i]) && s[i] != ';' && s[i] != '+' && s[i] as int < 0x80 && s[i] != '\r'
  {
    if n < 16 then [HexChar(n)] else Hex(n / 16) + [HexChar(n % 16)]
  }

  lemma {:induction false} HexRoundTrip(n: nat)
    ensures HexValue(Hex(n)) == Some(n)
  {
    var s := Hex(n);
    if n >= 16 {
      HexRoundTrip(n / 16);
      assert s[..|s| - 1] == Hex(n / 16);
    } else {
      assert s[..|s| - 1] == "";
      assert HexValue("") == Some(0);
    }
  }

  // ----- Which texts are sizes -----

  function Zeros(k: nat): string {
    seq(k, _ => '0')
  }

  /** Digit by digit the same, or the capital of it. */
  predicate SameHex(d: string, h: string) {
    |d| == |h| && forall i :: 0 <= i < |d| ==> d[i] == h[i] || ('A' <= d[i] <= 'F' && d[i] as int + 0x20 == h[i] as int)
  }

  lemma SameDigit(c: char, h: char)
    requires c == h || ('A' <= c <= 'F' && c as int + 0x20 == h as int)
    requires HexDigit(h).Some?
    ensures HexDigit(c) == HexDigit(h)
  {
  }

  lemma {:induction false} SameHexValue(d: string, h: string)
    requires SameHex(d, h) && HexValue(h).Some?
    ensures HexValue(d) == HexValue(h)
    decreases |d|
  {
    hide HexDigit;
    if d != "" {
      SameHexValue(d[..|d| - 1], h[..|h| - 1]);
      SameDigit(d[|d| - 1], h[|h| - 1]);
    }
  }

  lemma {:induction false} ZerosValue(k: nat, d: string)
    ensures HexValue(Zeros(k) + d) == HexValue(d)
    decreases |d|, k
  {
    hide HexDigit;
    var s := Zeros(k) + d;
    if d != "" {
      ZerosValue(k, d[..|d| - 1]);
      assert s[..|s| - 1] == Zeros(k) + d[..|d| - 1];
    } else if k > 0 {
      ZerosValue(k - 1, "");
      assert s[..|s| - 1] == Zeros(k - 1) + "";
      ZeroDigit();
    } else {
      assert s == "";
    }
  }

  lemma ZeroDigit()
    ensures HexDigit('0') == Some(0)
  {
  }

  lemma DigitShape(c: char)
    requires HexDigit(c).Some?
    ensures HexDigit(c).value < 16
    ensures var h := HexChar(HexDigit(c).value); c == h || ('A' <= c <= 'F' && c as int + 0x20 == h as int)
  {
  }

  /** One more digit. */
  lemma HexGrows(t: string, j: nat, c: char, high: nat, low: nat)
    requires j <= |t| && SameHex(t[j..], Hex(high)) && high > 0 && low < 16
    requires c == HexChar(low) || ('A' <= c <= 'F' && c as int + 0x20 == HexChar(low) as int)
    ensures SameHex((t + [c])[j..], Hex(high * 16 + low))
  {
    hide HexChar;
    var n := high * 16 + low;
    assert n / 16 == high && n % 16 == low && n >= 16;
    assert Hex(n) == Hex(high) + [HexChar(low)];
    assert (t + [c])[j..] == t[j..] + [c];
    hide Hex;
  }

  lemma HexOne(c: char, low: nat)
    requires low < 16
    requires c == HexChar(low) || ('A' <= c <= 'F' && c as int + 0x20 == HexChar(low) as int)
    ensures SameHex([c], Hex(low))
  {
    hide HexChar;
    assert Hex(low) == [HexChar(low)];
  }

  lemma HexLast(s: string)
    requires s != "" && HexValue(s).Some?
    ensures var t, c := s[..|s| - 1], s[|s| - 1];
      && s == t + [c] && HexValue(t).Some? && HexDigit(c).Some? && HexDigit(c).value < 16
      && HexValue(s).value == HexValue(t).value * 16 + HexDigit(c).value
      && (t == "" ==> HexValue(t).value == 0)
  {
    DigitShape(s[|s| - 1]);
    hide HexDigit;
  }

  /** One more digit behind a numeral of the stated shape. */
  lemma HexNext(t: string, j: nat, c: char, high: nat, low: nat) returns (k: nat)
    requires j <= |t| && t[..j] == Zeros(j) && SameHex(t[j..], Hex(high)) && low < 16
    requires c == HexChar(low) || ('A' <= c <= 'F' && c as int + 0x20 == HexChar(low) as int)
    ensures k <= |t + [c]| && (t + [c])[..k] == Zeros(k) && SameHex((t + [c])[k..], Hex(high * 16 + low))
  {
    hide SameHex, Hex, HexChar, Zeros, RustSpace;
    HexOne(c, low);
    if high > 0 {
      HexGrows(t, j, c, high, low);
      k := j;
      assert (t + [c])[..k] == t[..k];
    } else {
      ZeroShape(t, j);
      k := |t|;
      assert (t + [c])[k..] == [c] && (t + [c])[..k] == t;
    }
  }

  /** A numeral is its shortest form in either case behind some zeros. */
  lemma {:induction false} HexShape(s: string) returns (k: nat)
    requires s != "" && HexValue(s).Some?
    ensures k <= |s| && s[..k] == Zeros(k) && SameHex(s[k..], Hex(HexValue(s).value))
    decreases |s|
  {
    hide HexDigit, HexChar, HexValue, SameHex, Hex, Zeros, RustSpace;
    var t, c := s[..|s| - 1], s[|s| - 1];
    HexLast(s);
    DigitShape(c);
    HexOne(c, HexDigit(c).value);
    if t == "" {
      k := 0;
      NoZeros();
      assert s[0..] == [c];
    } else {
      var j := HexShape(t);
      k := HexNext(t, j, c, HexValue(t).value, HexDigit(c).value);
    }
  }

  lemma NoZeros()
    ensures Zeros(0) == ""
  {
  }

  lemma ZeroShape(t: string, j: nat)
    requires j <= |t| && t[..j] == Zeros(j) && SameHex(t[j..], Hex(0))
    ensures t == Zeros(|t|)
  {
    assert Hex(0) == "0" && |t[j..]| == 1;
    assert t[j..][0] == t[j];
    forall i | 0 <= i < |t|
      ensures t[i] == '0'
    {
      assert i < j ==> t[i] == t[..j][i];
    }
  }

  /**
   A text is read as a size exactly when it is the number in hexadecimal, with capitals, zeros in front and a plus
   sign allowed, below 2^64.
   */
  lemma ParseHexIff(s: string, n: nat)
    ensures ParseHex(s) == Some(n) <==>
      n < USIZE && exists k: nat, d: string :: SameHex(d, Hex(n)) && (s == Zeros(k) + d || s == "+" + (Zeros(k) + d))
  {
    hide HexValue, Hex;
    HexRoundTrip(n);
    forall k: nat, d: string | SameHex(d, Hex(n)) && (s == Zeros(k) + d || s == "+" + (Zeros(k) + d))
      ensures n < USIZE ==> ParseHex(s) == Some(n)
    {
      SameHexValue(d, Hex(n));
      ZerosValue(k, d);
      var digits := Zeros(k) + d;
      NoSign(n, k, d);
      assert ("+" + digits)[1..] == digits;
    }
    if ParseHex(s) == Some(n) {
      var digits := if "+" <= s then s[1..] else s;
      var k := HexShape(digits);
      assert digits == Zeros(k) + digits[k..];
      assert "+" <= s ==> s == "+" + digits;
    }
  }

  lemma NoSign(n: nat, k: nat, d: string)
    requires SameHex(d, Hex(n))
    ensures Zeros(k) + d != "" && !("+" <= Zeros(k) + d)
  {
    var h := Hex(n);
    assert h[0] != '+' && |d| == |h|;
    assert (Zeros(k) + d)[0] == if k > 0 then '0' else d[0];
  }

  /** The size is the text in front of a semicolon, with white space around it on both sides. */
  lemma SizeText(line: seq<byte>, a: string, text: string, b: string, extension: string)
    requires Utf8.Lossy(line) == a + text + b + extension && AllBlank(a) && AllBlank(b)
    requires extension == "" || extension[0] == ';'
    requires ';' !in text && (text == "" || (!RustSpace(text[0]) && !RustSpace(text[|text| - 1])))
    ensures ChunkSize(line) == ParseHex(text)
  {
    hide ParseHex, RustSpace;
    var whole := a + text + b + extension;
    if extension == "" {
      assert whole == a + text + b;
      TrimOf(a, text, b);
      BeforeNothing(text);
      assert "" + text + "" == text;
      NoneIsBlank();
      TrimOf("", text, "");
    } else {
      SemicolonText(a, text, b, extension);
    }
  }

  lemma BeforeNothing(text: string)
    requires ';' !in text
    ensures Before(text, ';') == text
  {
    BeforeStops(text, ';', "");
  }

  lemma BlankHasNone(s: string)
    requires AllBlank(s)
    ensures ';' !in s
  {
  }

  lemma SemicolonText(a: string, text: string, b: string, extension: string)
    requires AllBlank(a) && AllBlank(b) && extension != "" && extension[0] == ';'
    requires ';' !in text && (text == "" || (!RustSpace(text[0]) && !RustSpace(text[|text| - 1])))
    ensures Trim(Before(Trim(a + text + b + extension), ';')) == text
  {
    hide RustSpace, AllBlank, Trim, Before;
    BlankHasNone(b);
    NoneIsBlank();
    BothBlank(a, b);
    if text == "" {
      assert a + text + b + extension == (a + b) + "" + extension;
      FrontText(a + b, "", extension);
      assert "" + "" + "" == "";
      TrimOf("", "", "");
    } else {
      assert a + text + b + extension == a + (text + b) + extension;
      assert (text + b)[0] == text[0];
      FrontText(a, text + b, extension);
      assert "" + text + b == text + b;
      TrimOf("", text, b);
    }
  }

  lemma FrontText(a: string, front: string, extension: string)
    requires AllBlank(a) && extension != "" && extension[0] == ';' && ';' !in front && (front == "" || !RustSpace(front[0]))
    ensures Before(Trim(a + front + extension), ';') == front
  {
    hide RustSpace, AllBlank, TrimStart, TrimEnd, Before;
    SemicolonIsPlain();
    var back := extension[1..];
    assert extension == [';'] + back;
    var shown := front + [';'] + back;
    assert a + front + extension == a + shown;
    assert shown[0] == if front == "" then ';' else front[0];
    TrimStartOf(a, shown);
    SemicolonStops(front, back);
  }

  lemma SemicolonStops(front: string, back: string)
    requires ';' !in front
    ensures Before(TrimEnd(front + [';'] + back), ';') == front
  {
    hide RustSpace, TrimEnd, Before;
    SemicolonIsPlain();
    TrimEndKeeps(front, ';', back);
    TextBefore(front, TrimEnd(front + [';'] + back));
  }

  lemma BothBlank(a: string, b: string)
    requires AllBlank(a) && AllBlank(b)
    ensures AllBlank(a + b)
  {
  }

  function Ascii(s: string): (b: seq<byte>)
    requires forall i :: 0 <= i < |s| ==> s[i] as int < 0x80
    ensures |b| == |s|
  {
    seq(|s|, i requires 0 <= i < |s| => s[i] as int)
  }

  lemma {:induction false} LossyOfAscii(s: string, t: seq<byte>)
    requires forall i :: 0 <= i < |s| ==> s[i] as int < 0x80
    ensures Utf8.Lossy(Ascii(s) + t) == s + Utf8.Lossy(t)
    decreases |s|
  {
    if s == "" {
      assert Ascii(s) + t == t;
    } else {
      assert Ascii(s) + t == [s[0] as int] + (Ascii(s[1..]) + t);
      Utf8.LossyAscii(s[0] as int, Ascii(s[1..]) + t);
      LossyOfAscii(s[1..], t);
    }
  }

  /** Chunk data with the extension text that follows its size. */
  datatype Chunk = Chunk(data: seq<byte>, extension: seq<byte>)

  predicate ValidExtension(e: seq<byte>) {
    (e == [] || e[0] == ';' as int) && CR !in e
  }

  function Line(n: nat, extension: seq<byte>): seq<byte> {
    Ascii(Hex(n)) + extension
  }

  function Encode(cs: seq<Chunk>, last: seq<byte>): seq<byte> {
    if cs == [] then Line(0, last) + CRLF
    else Line(|cs[0].data|, cs[0].extension) + CRLF + cs[0].data + CRLF + Encode(cs[1..], last)
  }

  function Body(cs: seq<Chunk>): seq<byte> {
    if cs == [] then [] else cs[0].data + Body(cs[1..])
  }

  predicate Encodable(cs: seq<Chunk>) {
    forall i :: 0 <= i < |cs| ==> cs[i].data != [] && ValidExtension(cs[i].extension)
  }

  lemma {:induction false} TrimEndKeeps(a: string, c: char, t: string)
    requires !RustSpace(c)
    ensures a + [c] <= TrimEnd(a + [c] + t)
    decreases |t|
  {
    var s := a + [c] + t;
    if t != "" && RustSpace(s[|s| - 1]) {
      assert s[..|s| - 1] == a + [c] + t[..|t| - 1];
      TrimEndKeeps(a, c, t[..|t| - 1]);
    } else {
      assert TrimEnd(s) == s;
    }
  }

  lemma {:induction false} BeforeStops(a: string, c: char, t: string)
    requires forall i :: 0 <= i < |a| ==> a[i] != c
    ensures Before(a + [c] + t, c) == a && Before(a, c) == a
    decreases |a|
  {
    if a != "" {
      assert (a + [c] + t)[1..] == a[1..] + [c] + t;
      BeforeStops(a[1..], c, t);
    }
  }

  /** Trimming keeps a text that starts with a digit and has only digits in front of the first semicolon. */
  lemma LineText(h: string, e: seq<byte>)
    requires h != "" && forall i :: 0 <= i < |h| ==> !RustSpace(h[i]) && h[i] != ';'
    requires ValidExtension(e)
    ensures Before(Trim(h + Utf8.Lossy(e)), ';') == h
  {
    hide *;
    TrimOfPlain(h, Utf8.Lossy(e));
    if e == [] {
      Utf8.LossyOfEmpty();
      PlainBefore(h);
    } else {
      ValidExtensionStart(e);
      ExtensionText(e);
      ExtendedBefore(h, Utf8.Lossy(e[1..]));
    }
  }

  lemma ValidExtensionStart(e: seq<byte>)
    requires e != [] && ValidExtension(e)
    ensures e[0] == ';' as int
  {
  }

  lemma PlainBefore(h: string)
    requires h != "" && forall i :: 0 <= i < |h| ==> !RustSpace(h[i]) && h[i] != ';'
    ensures Before(Trim(h + []), ';') == h
  {
    assert h + [] == h;
    TrimOfPlain(h, "");
    BeforeStops(h, ';', "");
  }

  lemma Assoc<T>(a: seq<T>, b: seq<T>, c: seq<T>)
    ensures a + (b + c) == a + b + c
  {
  }

  lemma SemicolonIsPlain()
    ensures !RustSpace(';')
  {
  }

  lemma ExtendedBefore(h: string, t: string)
    requires h != "" && forall i :: 0 <= i < |h| ==> !RustSpace(h[i]) && h[i] != ';'
    ensures Before(Trim(h + ([';'] + t)), ';') == h
  {
    hide *;
    TrimOfPlain(h, [';'] + t);
    Assoc(h, [';'], t);
    SemicolonIsPlain();
    TrimEndKeeps(h, ';', t);
    TextBefore(h, TrimEnd(h + [';'] + t));
  }

  lemma ExtensionText(e: seq<byte>)
    requires e != [] && e[0] == ';' as int
    ensures Utf8.Lossy(e) == [';'] + Utf8.Lossy(e[1..])
  {
    assert e == [e[0]] + e[1..];
    Utf8.LossyAscii(e[0], e[1..]);
  }

  lemma TextBefore(h: string, text: string)
    requires h + [';'] <= text && forall i :: 0 <= i < |h| ==> h[i] != ';'
    ensures Before(text, ';') == h
  {
    BeforeStops(h, ';', text[|h| + 1..]);
    assert text == h + [';'] + text[|h| + 1..];
  }

  lemma TrimOfPlain(h: string, t: string)
    requires h != "" && forall i :: 0 <= i < |h| ==> !RustSpace(h[i])
    ensures Trim(h) == h && Trim(h + t) == TrimEnd(h + t)
  {
    assert (h + t)[0] == h[0];
    assert TrimStart(h + t) == h + t && TrimStart(h) == h;
  }

  lemma SizeOfLine(n: nat, e: seq<byte>)
    requires n < USIZE && ValidExtension(e)
    ensures ChunkSize(Line(n, e)) == Some(n)
  {
    hide Before, HexValue, Utf8.Lossy, Trim;
    var h := Hex(n);
    LossyOfAscii(h, e);
    LineText(h, e);
    TrimOfPlain(h, "");
    HexRoundTrip(n);
    assert h[0] != '+';
  }

  lemma NoCrInLine(n: nat, e: seq<byte>)
    requires ValidExtension(e)
    ensures CR !in Line(n, e)
  {
  }

  /** A line without CR ends at the first CRLF after it. */
  lemma LineEnd(line: seq<byte>, rest: seq<byte>)
    requires CR !in line
    ensures IndexOf(line + CRLF + rest, CRLF, 0) == |line|
  {
    var s := line + CRLF + rest;
    assert s[|line|..|line| + 2] == CRLF;
    forall q: nat | q < |line|
      ensures !At(s, CRLF, q)
    {
      assert s[q] == line[q];
      if q + 2 <= |s| {
        assert s[q..q + 2][0] == s[q];
      }
    }
    IndexOfIs(s, CRLF, 0, |line|);
  }

  lemma NoLineEnd(s: seq<byte>)
    requires forall i :: 0 <= i < |s| - 1 ==> s[i] != CR
    ensures IndexOf(s, CRLF, 0) == -1
  {
    forall q: nat
      ensures !At(s, CRLF, q)
    {
      if q + 2 <= |s| {
        assert s[q..q + 2][0] == s[q];
      }
    }
  }

  /** One chunk line off the front of the stream. */
  lemma DechunkLine(line: seq<byte>, size: nat, tail: seq<byte>, total: nat)
    requires CR !in line && ChunkSize(line) == Some(size) && size + total <= MAX_RESP
    ensures (var r := Dechunk(line + CRLF + tail, total);
             if size == 0 then r == Decoded([], Done)
             else
               var take := if size <= |tail| then size else |tail|;
               var more := Dechunk(AfterCrlf(tail[take..]), total + size);
               r == Decoded(tail[..take] + more.body, more.end))
  {
    hide ChunkSize, IndexOf, AfterCrlf;
    var s := line + CRLF + tail;
    LineEnd(line, tail);
    assert s[..|line|] == line && s[|line| + 2..] == tail;
  }

  /** One encoded chunk in front of anything. */
  lemma DechunkOne(c: Chunk, more: seq<byte>, total: nat)
    requires c.data != [] && ValidExtension(c.extension) && total + |c.data| <= MAX_RESP
    ensures (var s := Line(|c.data|, c.extension) + CRLF + c.data + CRLF + more;
             var r := Dechunk(more, total + |c.data|);
             Dechunk(s, total) == Decoded(c.data + r.body, r.end))
  {
    hide ChunkSize, Dechunk, Line, ValidExtension;
    var line := Line(|c.data|, c.extension);
    var tail := c.data + CRLF + more;
    assert line + CRLF + c.data + CRLF + more == line + CRLF + tail;
    SizeOfLine(|c.data|, c.extension);
    NoCrInLine(|c.data|, c.extension);
    DechunkLine(line, |c.data|, tail, total);
    assert tail[..|c.data|] == c.data && tail[|c.data|..] == CRLF + more;
    assert (CRLF + more)[..2] == CRLF && (CRLF + more)[2..] == more;
  }

  /** A chunk whose data is not followed by CRLF is read all the same. */
  lemma DechunkLoose(c: Chunk, more: seq<byte>, total: nat)
    requires c.data != [] && ValidExtension(c.extension) && total + |c.data| <= MAX_RESP && !(CRLF <= more)
    ensures (var s := Line(|c.data|, c.extension) + CRLF + (c.data + more);
             var r := Dechunk(more, total + |c.data|);
             Dechunk(s, total) == Decoded(c.data + r.body, r.end))
  {
    hide ChunkSize, Dechunk, Line, ValidExtension;
    var line := Line(|c.data|, c.extension);
    var tail := c.data + more;
    SizeOfLine(|c.data|, c.extension);
    NoCrInLine(|c.data|, c.extension);
    DechunkLine(line, |c.data|, tail, total);
    assert tail[..|c.data|] == c.data && tail[|c.data|..] == more;
    assert |more| >= 2 ==> more[..2] != CRLF;
  }

  /** Decoding inverts encoding, whatever follows the last-chunk line. */
  lemma {:induction false} DechunkOfEncode(cs: seq<Chunk>, last: seq<byte>, tail: seq<byte>, total: nat)
    requires Encodable(cs) && ValidExtension(last) && total + |Body(cs)| <= MAX_RESP
    ensures Dechunk(Encode(cs, last) + tail, total) == Decoded(Body(cs), Done)
    decreases |cs|
  {
    hide ChunkSize, Dechunk, Line, ValidExtension;
    if cs == [] {
      SizeOfLine(0, last);
      NoCrInLine(0, last);
      DechunkLine(Line(0, last), 0, tail, total);
    } else {
      var c := cs[0];
      var more := Encode(cs[1..], last) + tail;
      assert Encode(cs, last) + tail == Line(|c.data|, c.extension) + CRLF + c.data + CRLF + more;
      DechunkOne(c, more, total);
      DechunkOfEncode(cs[1..], last, tail, total + |c.data|);
    }
  }

  /** Input cut anywhere before the end of the last-chunk line is an error, with a prefix forwarded. */
  lemma {:induction false} CutIsBroken(cs: seq<Chunk>, last: seq<byte>, cut: nat, total: nat)
    requires Encodable(cs) && ValidExtension(last) && total + |Body(cs)| <= MAX_RESP
    requires cut < |Encode(cs, last)|
    ensures Dechunk(Encode(cs, last)[..cut], total).end == Broken
    ensures Dechunk(Encode(cs, last)[..cut], total).body <= Body(cs)
    decreases |cs|
  {
    hide ChunkSize, Dechunk, Line, ValidExtension;
    var whole := Encode(cs, last);
    if cs == [] {
      NoCrInLine(0, last);
      CutLine(Line(0, last), [], cut, total);
      assert whole + [] == whole;
    } else {
      var c := cs[0];
      var line := Line(|c.data|, c.extension);
      NoCrInLine(|c.data|, c.extension);
      var more := Encode(cs[1..], last);
      var upto := |line| + 2 + |c.data| + 2;
      if cut < |line| + 2 {
        CutLine(line, c.data + CRLF + more, cut, total);
        assert whole == line + CRLF + (c.data + CRLF + more);
      } else if cut < upto {
        CutData(c, whole, more, cut, total);
      } else {
        assert whole[..cut] == line + CRLF + c.data + CRLF + more[..cut - upto];
        DechunkOne(c, more[..cut - upto], total);
        CutIsBroken(cs[1..], last, cut - upto, total + |c.data|);
      }
    }
  }

  lemma CutLine(line: seq<byte>, rest: seq<byte>, cut: nat, total: nat)
    requires CR !in line && cut < |line| + 2
    ensures Dechunk((line + CRLF + rest)[..cut], total) == Decoded([], Broken)
  {
    var s := (line + CRLF + rest)[..cut];
    assert forall i :: 0 <= i < |s| && i < |line| ==> s[i] == line[i];
    NoLineEnd(s);
  }

  lemma CutData(c: Chunk, whole: seq<byte>, more: seq<byte>, cut: nat, total: nat)
    requires c.data != [] && ValidExtension(c.extension) && total + |c.data| <= MAX_RESP
    requires whole == Line(|c.data|, c.extension) + CRLF + c.data + CRLF + more
    requires |Line(|c.data|, c.extension)| + 2 <= cut < |Line(|c.data|, c.extension)| + 2 + |c.data| + 2
    ensures Dechunk(whole[..cut], total).end == Broken && Dechunk(whole[..cut], total).body <= c.data
  {
    hide ChunkSize, Line, ValidExtension, IndexOf;
    var line := Line(|c.data|, c.extension);
    var rest := (c.data + CRLF)[..cut - |line| - 2];
    assert whole[..cut] == line + CRLF + rest;
    SizeOfLine(|c.data|, c.extension);
    NoCrInLine(|c.data|, c.extension);
    DechunkLine(line, |c.data|, rest, total);
    var take := if |c.data| <= |rest| then |c.data| else |rest|;
    assert rest[..take] == c.data[..take];
    assert |rest[take..]| <= 1;
    NoLineEnd(rest[take..]);
    assert Dechunk(rest[take..], total + |c.data|) == Decoded([], Broken);
    assert c.data[..take] + [] == c.data[..take];
  }
}
