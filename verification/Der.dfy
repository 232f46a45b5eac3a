/**
 Raw ECDSA signatures as DER (ITU-T X.690): the encoder of the QingTian verifier, a strict reader, and
 when the encoding is value preserving and minimal.
 */
module Der {
  import opened Bytes

  // ----- Lengths -----

  /** The signed 32-bit integer a JavaScript bitwise operator works on. */
  function ToInt32(n: int): (r: int)
    ensures -0x8000_0000 <= r < 0x8000_0000
    ensures 0 <= n < 0x8000_0000 ==> r == n
  {
    var m := n % 0x1_0000_0000;
    if m < 0x8000_0000 then m else m - 0x1_0000_0000
  }

  /** `n >> 8`. */
  function ShiftRight8(n: int): (r: int)
    ensures r < 0x80_0000
    ensures 0 <= n < 0x8000_0000 ==> r == n / 0x100
  {
    ToInt32(n) / 0x100
  }

  /** The octets the length loop collects, most significant first. */
  function LengthOctets(n: int): (b: seq<byte>)
    decreases if n < 0x80_0000 then 0 else 1, n
  {
    if n <= 0 then [] else LengthOctets(ShiftRight8(n)) + [n % 0x100]
  }

  function DerLength(len: nat): seq<byte> {
    if len < 0x80 then [len]
    else
      LengthOctetsShort(len);
      [0x80 + |LengthOctets(len)|] + LengthOctets(len)
  }

  lemma OctetsUnfold(n: int)
    ensures |LengthOctets(n)| == if n <= 0 then 0 else |LengthOctets(ShiftRight8(n))| + 1
  {
  }

  lemma LengthOctetsShort(n: int)
    ensures |LengthOctets(n)| <= 4
    ensures n >= 1 ==> |LengthOctets(n)| >= 1
  {
    hide LengthOctets, ShiftRight8;
    var a := ShiftRight8(n);
    var b := ShiftRight8(a);
    var c := ShiftRight8(b);
    OctetsUnfold(n);
    OctetsUnfold(a);
    OctetsUnfold(b);
    OctetsUnfold(c);
    OctetsUnfold(ShiftRight8(c));
  }

  /** `derLength`. */
  method BuildLength(len: nat) returns (r: seq<byte>)
    ensures r == DerLength(len)
  {
    if len < 0x80 {
      return [len];
    }
    var bytes: seq<byte> := [];
    var n: int := len;
    LengthOctetsShort(len);
    assert LengthOctets(len) + [] == LengthOctets(len);
    while n > 0
      invariant LengthOctets(n) + bytes == LengthOctets(len)
      decreases if n < 0x80_0000 then 0 else 1, n
    {
      assert LengthOctets(ShiftRight8(n)) + [n % 0x100] + bytes == LengthOctets(ShiftRight8(n)) + ([n % 0x100] + bytes);
      bytes := [n % 0x100] + bytes;
      n := ShiftRight8(n);
    }
    assert LengthOctets(n) + bytes == bytes;
    r := [0x80 + |bytes|] + bytes;
  }

  /** A length in front of other octets, only in its shortest form (sections 8.1.3 and 10.1 of X.690). */
  function ReadLength(b: seq<byte>): Option<(nat, seq<byte>)> {
    if b == [] then None
    else if b[0] < 0x80 then Some((b[0], b[1..]))
    else
      var k := b[0] - 0x80;
      if k == 0 || |b| < 1 + k || b[1] == 0 || FromBE(b[1..1 + k]) < 0x80 then None
      else Some((FromBE(b[1..1 + k]), b[1 + k..]))
  }

  lemma {:induction false} OctetsValue(n: int)
    requires 0 <= n < 0x8000_0000
    ensures FromBE(LengthOctets(n)) == n
    ensures n > 0 ==> LengthOctets(n) != [] && LengthOctets(n)[0] != 0
    decreases n
  {
    if n > 0 {
      var b := LengthOctets(n);
      assert b[..|b| - 1] == LengthOctets(n / 0x100);
      OctetsValue(n / 0x100);
    }
  }

  lemma OctetsWrapped(n: nat)
    requires n >= 0x8000_0000
    ensures FromBE(LengthOctets(n)) < 0x8000_0000
  {
    var s := ShiftRight8(n);
    var b := LengthOctets(n);
    assert b == LengthOctets(s) + [n % 0x100];
    assert b[..|b| - 1] == LengthOctets(s);
    if s > 0 {
      OctetsValue(s);
    } else {
      assert LengthOctets(s) == [];
    }
  }

  /** A length is read back, in shortest form, exactly when it is below 2^31. */
  lemma LengthRoundTrip(len: nat, rest: seq<byte>)
    ensures ReadLength(DerLength(len) + rest) == Some((len, rest)) <==> len < 0x8000_0000
  {
    var e := DerLength(len);
    var b := e + rest;
    if len < 0x80 {
      assert b[1..] == rest;
    } else {
      LengthOctetsShort(len);
      var o := LengthOctets(len);
      assert b[1..1 + |o|] == o && b[1 + |o|..] == rest && b[1] == o[0];
      if len < 0x8000_0000 {
        OctetsValue(len);
      } else {
        OctetsWrapped(len);
      }
    }
  }

  lemma {:induction false} OctetsUnique(o: seq<byte>)
    requires FromBE(o) < 0x8000_0000 && (o != [] ==> o[0] != 0)
    ensures LengthOctets(FromBE(o)) == o
    decreases |o|
  {
    if o != [] {
      var front := o[..|o| - 1];
      Positive(o);
      assert FromBE(o) / 0x100 == FromBE(front) && FromBE(o) % 0x100 == o[|o| - 1];
      OctetsUnique(front);
    }
  }

  lemma {:induction false} Positive(o: seq<byte>)
    requires o != [] && o[0] != 0
    ensures FromBE(o) > 0
    decreases |o|
  {
    if |o| > 1 {
      Positive(o[..|o| - 1]);
    }
  }

  /** Whatever is read as a length below 2^31 is the encoding of it. */
  lemma LengthIsEncoded(b: seq<byte>)
    requires ReadLength(b).Some? && ReadLength(b).value.0 < 0x8000_0000
    ensures b == DerLength(ReadLength(b).value.0) + ReadLength(b).value.1
  {
    var n, rest := ReadLength(b).value.0, ReadLength(b).value.1;
    if b[0] >= 0x80 {
      var k := b[0] - 0x80;
      var o := b[1..1 + k];
      OctetsUnique(o);
      assert b == [b[0]] + o + rest;
    }
  }

  // ----- Integers -----

  /** The octets of a non-negative INTEGER: no redundant leading zero, a zero octet before a set top bit. */
  function Content(raw: seq<byte>): (v: seq<byte>) {
    if |raw| > 1 && raw[0] == 0 && raw[1] < 0x80 then Content(raw[1..])
    else if raw != [] && raw[0] >= 0x80 then [0] + raw
    else raw
  }

  function DerInteger(raw: seq<byte>): seq<byte> {
    [0x02] + DerLength(|Content(raw)|) + Content(raw)
  }

  /** `derInteger`. */
  method BuildInteger(raw: seq<byte>) returns (r: seq<byte>)
    ensures r == DerInteger(raw)
  {
    var value := raw;
    while |value| > 1 && value[0] == 0 && value[1] < 0x80
      invariant Content(value) == Content(raw)
      decreases |value|
    {
      value := value[1..];
    }
    if value != [] && value[0] >= 0x80 {
      value := [0] + value;
    }
    var length := BuildLength(|value|);
    r := [0x02] + length + value;
  }

  /** Minimal two's complement of a non-negative number (section 8.3 of X.690). */
  predicate MinimalNonNegative(v: seq<byte>) {
    v != [] && v[0] < 0x80 && (|v| > 1 && v[0] == 0 ==> v[1] >= 0x80)
  }

  /** The content keeps the unsigned value and is minimal; only an empty input has no valid content. */
  lemma {:induction false} ContentIsMinimal(raw: seq<byte>)
    ensures FromBE(Content(raw)) == FromBE(raw)
    ensures MinimalNonNegative(Content(raw)) <==> raw != []
    ensures |Content(raw)| <= |raw| + 1
    decreases |raw|
  {
    if raw != [] {
      FromBELeadingZero(raw);
      if |raw| > 1 && raw[0] == 0 && raw[1] < 0x80 {
        assert [0] + raw[1..] == raw;
        FromBELeadingZero(raw[1..]);
        ContentIsMinimal(raw[1..]);
      }
    }
  }

  lemma Scale(a: int, p: int)
    ensures a * (0x100 * p) == 0x100 * (a * p)
  {
  }

  /** The value by its first octet. */
  lemma {:induction false} FirstOctet(v: seq<byte>)
    requires v != []
    ensures FromBE(v) == v[0] * Pow256(|v| - 1) + FromBE(v[1..])
    decreases |v|
  {
    if |v| > 1 {
      var front, rest := v[..|v| - 1], v[1..];
      FirstOctet(front);
      assert rest[..|rest| - 1] == front[1..];
      Scale(v[0], Pow256(|v| - 2));
    } else {
      assert v[..0] == [] && v[1..] == [];
    }
  }

  lemma {:induction false} PowGrows(j: nat, k: nat)
    requires j <= k
    ensures Pow256(j) <= Pow256(k)
    decreases k
  {
    if j < k {
      PowGrows(j, k - 1);
    }
  }

  lemma Products(a: nat, b: nat, c: nat)
    requires a <= b
    ensures a * c <= b * c
  {
  }

  lemma BelowTop(v: seq<byte>)
    requires v != [] && v[0] < 0x80
    ensures FromBE(v) < 0x80 * Pow256(|v| - 1)
  {
    hide FromBE, Pow256;
    FirstOctet(v);
    Products(v[0], 0x7F, Pow256(|v| - 1));
  }

  lemma AboveLow(w: seq<byte>)
    requires MinimalNonNegative(w) && |w| > 1
    ensures 0x80 * Pow256(|w| - 2) <= FromBE(w)
  {
    var p := Pow256(|w| - 2);
    assert Pow256(|w| - 1) == 0x100 * p;
    FirstOctet(w);
    if w[0] == 0 {
      FirstOctet(w[1..]);
      Products(0x80, w[1], p);
    } else {
      Products(1, w[0], 0x100 * p);
    }
  }

  lemma ShorterIsSmaller(v: seq<byte>, w: seq<byte>)
    requires MinimalNonNegative(v) && MinimalNonNegative(w) && |v| < |w|
    ensures FromBE(v) < FromBE(w)
  {
    hide FromBE, Pow256;
    BelowTop(v);
    AboveLow(w);
    PowGrows(|v| - 1, |w| - 2);
  }

  /** There is one minimal content for a number. */
  lemma MinimalIsUnique(v: seq<byte>, w: seq<byte>)
    requires MinimalNonNegative(v) && MinimalNonNegative(w) && FromBE(v) == FromBE(w)
    ensures v == w
  {
    if |v| < |w| {
      ShorterIsSmaller(v, w);
    } else if |w| < |v| {
      ShorterIsSmaller(w, v);
    } else {
      BEOfFromBE(v);
      BEOfFromBE(w);
    }
  }

  /** An INTEGER in front of other octets, minimal and non-negative. */
  function ReadInteger(b: seq<byte>): Option<(nat, seq<byte>)> {
    if b == [] || b[0] != 0x02 then None
    else
      var l := ReadLength(b[1..]);
      if l.None? || |l.value.1| < l.value.0 then None
      else
        var v := l.value.1[..l.value.0];
        if MinimalNonNegative(v) then Some((FromBE(v), l.value.1[l.value.0..])) else None
  }

  lemma IntegerRoundTrip(raw: seq<byte>, rest: seq<byte>)
    requires raw != [] && |Content(raw)| < 0x8000_0000
    ensures ReadInteger(DerInteger(raw) + rest) == Some((FromBE(raw), rest))
  {
    hide DerLength, ReadLength, Content, FromBE, MinimalNonNegative;
    var v := Content(raw);
    var b := DerInteger(raw) + rest;
    assert b[1..] == DerLength(|v|) + (v + rest);
    LengthRoundTrip(|v|, v + rest);
    ContentIsMinimal(raw);
    assert (v + rest)[..|v|] == v && (v + rest)[|v|..] == rest;
  }

  // ----- Signatures -----

  function Halves(raw: seq<byte>): (seq<byte>, seq<byte>) {
    (raw[..|raw| / 2], raw[|raw| / 2..])
  }

  function Body(raw: seq<byte>): seq<byte> {
    DerInteger(Halves(raw).0) + DerInteger(Halves(raw).1)
  }

  function DerSignature(raw: seq<byte>): seq<byte> {
    [0x30] + DerLength(|Body(raw)|) + Body(raw)
  }

  /** `rawEcdsaToDer`. */
  method RawEcdsaToDer(raw: seq<byte>) returns (r: seq<byte>)
    ensures r == DerSignature(raw)
    ensures ReadSignature(r) == Some((FromBE(raw[..|raw| / 2]), FromBE(raw[|raw| / 2..])))
       <==> |raw| >= 2 && |Body(raw)| < 0x8000_0000
  {
    SignatureRoundTrip(raw);
    var half := |raw| / 2;
    var first := BuildInteger(raw[..half]);
    var second := BuildInteger(raw[half..]);
    var length := BuildLength(|first + second|);
    r := [0x30] + length + (first + second);
  }

  /** A SEQUENCE of exactly two INTEGERs and nothing else. */
  function ReadSignature(b: seq<byte>): Option<(nat, nat)> {
    if b == [] || b[0] != 0x30 then None
    else
      var l := ReadLength(b[1..]);
      if l.None? || |l.value.1| != l.value.0 then None
      else
        var r := ReadInteger(l.value.1);
        if r.None? then None
        else
          var s := ReadInteger(r.value.1);
          if s.None? || s.value.1 != [] then None else Some((r.value.0, s.value.0))
  }

  /**
   Reading the signature back gives exactly the two unsigned halves, minimal and in shortest form, exactly
   when both halves are non-empty and the sequence is shorter than 2^31 octets.
   */
  lemma SignatureRoundTrip(raw: seq<byte>)
    ensures ReadSignature(DerSignature(raw)) == Some((FromBE(Halves(raw).0), FromBE(Halves(raw).1)))
       <==> |raw| >= 2 && |Body(raw)| < 0x8000_0000
  {
    hide DerLength, ReadLength, Content, FromBE, MinimalNonNegative, ReadInteger, DerInteger;
    var d, body := DerSignature(raw), Body(raw);
    var a, b := Halves(raw).0, Halves(raw).1;
    assert d[1..] == DerLength(|body|) + body;
    LengthRoundTrip(|body|, body);
    if |body| < 0x8000_0000 {
      IntegerSizes(raw);
      if |raw| >= 2 {
        IntegerRoundTrip(a, DerInteger(b));
        IntegerRoundTrip(b, []);
        assert DerInteger(b) + [] == DerInteger(b);
      } else {
        EmptyHalf(DerInteger(b));
      }
    } else {
      WrongLength(|body|, body);
    }
  }

  lemma IntegerSizes(raw: seq<byte>)
    ensures |Content(Halves(raw).0)| <= |Body(raw)| && |Content(Halves(raw).1)| <= |Body(raw)|
  {
  }

  lemma EmptyHalf(rest: seq<byte>)
    ensures ReadInteger(DerInteger([]) + rest).None?
  {
    var b := DerInteger([]) + rest;
    assert Content([]) == [] && DerLength(0) == [0];
    assert b == [0x02] + [0] + rest;
    assert b[1..][0] == 0;
  }

  /** From 2^31 on, the length that is read no longer matches what follows. */
  lemma WrongLength(len: nat, rest: seq<byte>)
    requires len >= 0x8000_0000 && |rest| == len
    ensures var l := ReadLength(DerLength(len) + rest); l.None? || |l.value.1| != l.value.0
  {
    var b := DerLength(len) + rest;
    LengthOctetsShort(len);
    OctetsWrapped(len);
    var o := LengthOctets(len);
    assert b[1..1 + |o|] == o && b[1 + |o|..] == rest;
  }
}
