/** Lines, trimming and small string helpers with the exact rules of the Rust and JavaScript libraries. */
module Text {
  import opened Bytes
  import Utf8

  /** `char::is_whitespace`: the Unicode White_Space property. */
  predicate RustSpace(c: char) {
    var n := c as int;
    9 <= n <= 13 || n == 0x20 || n == 0x85 || n == 0xA0 || n == 0x1680 || 0x2000 <= n <= 0x200A
    || n == 0x2028 || n == 0x2029 || n == 0x202F || n == 0x205F || n == 0x3000
  }

  /** `str::trim_start`. */
  function TrimStart(s: string): (t: string)
    ensures t == [] || !RustSpace(t[0])
    ensures |t| <= |s| && t == s[|s| - |t|..]
  {
    if s != [] && RustSpace(s[0]) then TrimStart(s[1..]) else s
  }

  /** `str::trim_end`. */
  function TrimEnd(s: string): (t: string)
    ensures t <= s && (t == [] || !RustSpace(t[|t| - 1]))
  {
    if s != [] && RustSpace(s[|s| - 1]) then TrimEnd(s[..|s| - 1]) else s
  }

  function Trim(s: string): string {
    TrimEnd(TrimStart(s))
  }

  predicate AllBlank(s: string) {
    forall i :: 0 <= i < |s| ==> RustSpace(s[i])
  }

  lemma {:induction false} TrimStartOf(a: string, s: string)
    requires AllBlank(a) && (s == "" || !RustSpace(s[0]))
    ensures TrimStart(a + s) == s
    decreases |a|
  {
    hide RustSpace;
    if a == "" {
      assert a + s == s;
    } else {
      assert (a + s)[1..] == a[1..] + s;
      TrimStartOf(a[1..], s);
    }
  }

  lemma {:induction false} TrimEndOf(s: string, b: string)
    requires AllBlank(b) && (s == "" || !RustSpace(s[|s| - 1]))
    ensures TrimEnd(s + b) == s
    decreases |b|
  {
    hide RustSpace;
    if b == "" {
      assert s + b == s;
    } else {
      assert (s + b)[..|s + b| - 1] == s + b[..|b| - 1];
      TrimEndOf(s, b[..|b| - 1]);
    }
  }

  lemma BlankMore(s: string, c: char)
    requires AllBlank(s) && RustSpace(c)
    ensures AllBlank([c] + s) && AllBlank(s + [c])
  {
    hide RustSpace;
  }

  lemma {:induction false} TrimStartParts(s: string)
    ensures AllBlank(s[..|s| - |TrimStart(s)|])
    decreases |s|
  {
    hide RustSpace, AllBlank;
    NoneIsBlank();
    if s != "" && RustSpace(s[0]) {
      TrimStartParts(s[1..]);
      var n := |s| - |TrimStart(s)|;
      BlankMore(s[1..][..n - 1], s[0]);
      HeadSlice(s, n);
    } else {
      assert s[..0] == "";
    }
  }

  lemma HeadSlice<T>(s: seq<T>, n: nat)
    requires 0 < n <= |s|
    ensures s[..n] == [s[0]] + s[1..][..n - 1]
  {
  }

  lemma LastSlice<T>(s: seq<T>, n: nat)
    requires n < |s|
    ensures s[n..] == s[..|s| - 1][n..] + [s[|s| - 1]]
  {
  }

  lemma Halves<T>(s: seq<T>, n: nat)
    requires n <= |s|
    ensures s == s[..n] + s[n..]
  {
  }

  lemma Regroup<T>(a: seq<T>, b: seq<T>, c: seq<T>)
    ensures a + (b + c) == a + b + c
  {
  }

  lemma NoneIsBlank()
    ensures AllBlank("")
  {
  }

  lemma {:induction false} TrimEndParts(s: string)
    ensures AllBlank(s[|TrimEnd(s)|..])
    decreases |s|
  {
    hide RustSpace, AllBlank;
    NoneIsBlank();
    if s != "" && RustSpace(s[|s| - 1]) {
      TrimEndParts(s[..|s| - 1]);
      var n := |TrimEnd(s)|;
      BlankMore(s[..|s| - 1][n..], s[|s| - 1]);
      LastSlice(s, n);
    } else {
      assert s[|s|..] == "";
    }
  }

  /** What trimming leaves of a text stands between white space. */
  lemma TrimParts(s: string) returns (a: string, b: string)
    ensures AllBlank(a) && AllBlank(b) && s == a + Trim(s) + b
  {
    hide TrimStart, TrimEnd, AllBlank;
    var t := TrimStart(s);
    TrimStartParts(s);
    TrimEndParts(t);
    a, b := s[..|s| - |t|], t[|TrimEnd(t)|..];
    Halves(s, |s| - |t|);
    Halves(t, |TrimEnd(t)|);
    Regroup(a, TrimEnd(t), b);
  }

  lemma TrimOf(a: string, s: string, b: string)
    requires AllBlank(a) && AllBlank(b) && (s == "" || (!RustSpace(s[0]) && !RustSpace(s[|s| - 1])))
    ensures Trim(a + s + b) == s
  {
    if s == "" {
      assert a + s + b == (a + b) + "";
      TrimStartOf(a + b, "");
    } else {
      assert a + s + b == a + (s + b);
      TrimStartOf(a, s + b);
      TrimEndOf(s, b);
    }
  }

  /** `String.prototype.trim` and `\s`: unlike Rust, a byte-order mark is a space and U+0085 is not. */
  predicate JsSpace(c: char) {
    var n := c as int;
    9 <= n <= 13 || n == 0x20 || n == 0xA0 || n == 0x1680 || 0x2000 <= n <= 0x200A || n == 0x2028 || n == 0x2029
    || n == 0x202F || n == 0x205F || n == 0x3000 || n == 0xFEFF
  }

  function JsTrimStart(s: string): (t: string)
    ensures |t| <= |s|
  {
    if s != "" && JsSpace(s[0]) then JsTrimStart(s[1..]) else s
  }

  function JsTrimEnd(s: string): (t: string)
    ensures |t| <= |s|
  {
    if s != "" && JsSpace(s[|s| - 1]) then JsTrimEnd(s[..|s| - 1]) else s
  }

  function JsTrim(s: string): (t: string)
    ensures |t| <= |s|
  {
    JsTrimEnd(JsTrimStart(s))
  }

  function Join(parts: seq<string>, sep: string): string {
    if parts == [] then [] else if |parts| == 1 then parts[0] else parts[0] + sep + Join(parts[1..], sep)
  }

  /** Drops one trailing CR. */
  function StripCr<T(==)>(line: seq<T>, cr: T): (s: seq<T>)
    ensures s <= line
  {
    if line != [] && line[|line| - 1] == cr then line[..|line| - 1] else line
  }

  /**
   `str::lines`, for text and for octets: the pieces ended by LF, each without one CR in front of that
   LF, and a last unterminated piece verbatim when it is not empty.
   */
  function Lines<T(==)>(s: seq<T>, lf: T, cr: T): (ls: seq<seq<T>>)
    decreases |s|
  {
    if s == [] then []
    else
      var p := IndexOf(s, [lf], 0);
      if p == -1 then [s] else [StripCr(s[..p], cr)] + Lines(s[p + 1..], lf, cr)
  }

  lemma AtOne<T>(s: seq<T>, c: T)
    ensures forall q: nat :: At(s, [c], q) <==> q < |s| && s[q] == c
  {
    forall q: nat | q < |s|
      ensures At(s, [c], q) <==> s[q] == c
    {
      assert s[q..q + 1] == [s[q]];
    }
  }

  lemma NotFound<T>(s: seq<T>, c: T)
    ensures IndexOf(s, [c], 0) == -1 <==> c !in s
  {
    AtOne(s, c);
  }

  lemma FirstAt<T>(a: seq<T>, c: T, b: seq<T>)
    requires c !in a
    ensures IndexOf(a + [c] + b, [c], 0) == |a|
  {
    var s := a + [c] + b;
    AtOne(s, c);
    assert forall q: nat :: q < |a| ==> s[q] == a[q];
    IndexOfIs(s, [c], 0, |a|);
  }

  lemma SplitAtFirst<T>(s: seq<T>, c: T)
    ensures var p := IndexOf(s, [c], 0);
            p != -1 ==> c !in s[..p] && s == s[..p] + [c] + s[p + 1..]
  {
    AtOne(s, c);
  }

  /** A terminated line in front is the first line. */
  lemma LinesSplit<T>(a: seq<T>, lf: T, b: seq<T>, cr: T)
    requires lf !in a
    ensures Lines(a + [lf] + b, lf, cr) == [StripCr(a, cr)] + Lines(b, lf, cr)
  {
    var s := a + [lf] + b;
    FirstAt(a, lf, b);
    assert s[..|a|] == a && s[|a| + 1..] == b;
  }

  function MapLossy(ls: seq<seq<byte>>): (ts: seq<string>)
    ensures |ts| == |ls|
  {
    seq(|ls|, i requires 0 <= i < |ls| => Utf8.Lossy(ls[i]))
  }

  lemma StripCrLossy(line: seq<byte>)
    ensures Utf8.Lossy(StripCr(line, CR)) == StripCr(Utf8.Lossy(line), '\r')
  {
    if line != [] {
      Utf8.LossyLast(line, CR);
      if line[|line| - 1] == CR {
        var l := line[..|line| - 1];
        assert line == l + [CR] + [];
        Utf8.LossyAround(l, CR, []);
      }
    }
  }

  /** Decoding a whole body and then splitting it into lines gives the lines decoded one by one. */
  lemma {:induction false} LinesOfLossy(b: seq<byte>)
    ensures Lines(Utf8.Lossy(b), '\n', '\r') == MapLossy(Lines(b, LF, CR))
    decreases |b|, 1
  {
    if b != [] {
      Utf8.LossyLast(b, LF);
      Utf8.LossyAsciiIn(b, LF);
      NotFound(b, LF);
      NotFound(Utf8.Lossy(b), '\n');
      var p := IndexOf(b, [LF], 0);
      if p != -1 {
        SplitAtFirst(b, LF);
        LinesOfLossyStep(b[..p], b[p + 1..]);
      }
    }
  }

  lemma {:induction false} LinesOfLossyStep(l: seq<byte>, r: seq<byte>)
    requires LF !in l
    ensures Lines(Utf8.Lossy(l + [LF] + r), '\n', '\r') == MapLossy(Lines(l + [LF] + r, LF, CR))
    decreases |r| + 1, 0
  {
    Utf8.LossyAround(l, LF, r);
    Utf8.LossyAsciiIn(l, LF);
    LinesSplit(Utf8.Lossy(l), '\n', Utf8.Lossy(r), '\r');
    LinesSplit(l, LF, r, CR);
    StripCrLossy(l);
    LinesOfLossy(r);
  }

  lemma OneChar(c: char)
    ensures Trim([c]) == if RustSpace(c) then "" else [c]
    ensures JsTrim([c]) == if JsSpace(c) then "" else [c]
  {
    hide RustSpace, JsSpace;
    assert [c][1..] == "" && [c][..0] == "";
  }

  /** The two trimming functions differ on exactly these two characters. */
  lemma SpacesDifferIff(c: char)
    ensures (RustSpace(c) <==> JsSpace(c)) <==> c != '\U{0085}' && c != '\U{FEFF}'
    ensures JsTrim("\U{FEFF}") == "" && Trim("\U{FEFF}") == "\U{FEFF}"
    ensures JsTrim("\U{0085}") == "\U{0085}" && Trim("\U{0085}") == ""
  {
    hide Trim, JsTrim;
    OneChar('\U{FEFF}');
    OneChar('\U{0085}');
  }
}
