/**
 UTF-8 as the sources rely on it: encoding, the strict decoder (`String::from_utf8`) and the lossy
 decoder (`String::from_utf8_lossy`, `Buffer.toString('utf8')`), which replaces every maximal
 ill-formed run with U+FFFD. Text is a sequence of Unicode scalar values.
 */
module Utf8 {
  import opened Bytes

  /** One decoding step: how many octets it consumes and the scalar value, if well formed. */
  datatype Step = Step(len: nat, scalar: Option<char>)

  const REPLACEMENT: char := '\U{FFFD}'

  function Octet(b: seq<byte>, i: nat): byte {
    if i < |b| then b[i] else 0
  }

  predicate IsCont(b: byte) {
    0x80 <= b < 0xC0
  }

  /** The octets allowed second after a given leading octet of a three- or four-octet form. */
  predicate SecondOk(b0: byte, b1: byte) {
    if b0 == 0xE0 then 0xA0 <= b1 < 0xC0
    else if b0 == 0xED then 0x80 <= b1 < 0xA0
    else if b0 == 0xF0 then 0x90 <= b1 < 0xC0
    else if b0 == 0xF4 then 0x80 <= b1 < 0x90
    else IsCont(b1)
  }

  function DecodeStep(b: seq<byte>): (s: Step)
    requires b != []
    ensures 1 <= s.len <= |b|
    ensures s.scalar.Some? && s.scalar.value as int < 0x80 <==> b[0] < 0x80
    ensures b[0] < 0x80 ==> s == Step(1, Some(b[0] as char))
  {
    var b0, b1, b2, b3 := b[0], Octet(b, 1), Octet(b, 2), Octet(b, 3);
    if b0 < 0x80 then
      Step(1, Some(b0 as char))
    else if 0xC2 <= b0 < 0xE0 then
      if IsCont(b1) then Step(2, Some(((b0 - 0xC0) * 0x40 + (b1 - 0x80)) as char)) else Step(1, None)
    else if 0xE0 <= b0 < 0xF0 then
      if !SecondOk(b0, b1) then Step(1, None)
      else if !IsCont(b2) then Step(2, None)
      else Step(3, Some((((b0 - 0xE0) * 0x40 + (b1 - 0x80)) * 0x40 + (b2 - 0x80)) as char))
    else if 0xF0 <= b0 < 0xF5 then
      if !SecondOk(b0, b1) then Step(1, None)
      else if !IsCont(b2) then Step(2, None)
      else if !IsCont(b3) then Step(3, None)
      else Step(4, Some(((((b0 - 0xF0) * 0x40 + (b1 - 0x80)) * 0x40 + (b2 - 0x80)) * 0x40 + (b3 - 0x80)) as char))
    else
      Step(1, None)
  }

  function Lossy(b: seq<byte>): (t: string) {
    if b == [] then [] else
      var s := DecodeStep(b);
      [s.scalar.GetOr(REPLACEMENT)] + Lossy(b[s.len..])
  }

  function Strict(b: seq<byte>): (t: Option<string>) {
    if b == [] then Some([]) else
      var s := DecodeStep(b);
      var rest := Strict(b[s.len..]);
      if s.scalar.None? || rest.None? then None else Some([s.scalar.value] + rest.value)
  }

  function EncodeChar(c: char): (b: seq<byte>)
    ensures 1 <= |b| <= 4
  {
    var n := c as int;
    var m := n / 0x40;
    var k := m / 0x40;
    if n < 0x80 then [n]
    else if n < 0x800 then [0xC0 + m, 0x80 + n % 0x40]
    else if n < 0x1_0000 then [0xE0 + k, 0x80 + m % 0x40, 0x80 + n % 0x40]
    else [0xF0 + k / 0x40, 0x80 + k % 0x40, 0x80 + m % 0x40, 0x80 + n % 0x40]
  }

  function Encode(t: string): (b: seq<byte>) {
    if t == [] then [] else EncodeChar(t[0]) + Encode(t[1..])
  }

  lemma StepOfEncoded(c: char, rest: seq<byte>)
    ensures DecodeStep(EncodeChar(c) + rest) == Step(|EncodeChar(c)|, Some(c))
  {
    var e := EncodeChar(c);
    var b := e + rest;
    assert b[0] == e[0];
    assert |e| > 1 ==> Octet(b, 1) == e[1];
    assert |e| > 2 ==> Octet(b, 2) == e[2];
    assert |e| > 3 ==> Octet(b, 3) == e[3];
  }

  lemma EncodedOfStep(b: seq<byte>)
    requires b != [] && DecodeStep(b).scalar.Some?
    ensures EncodeChar(DecodeStep(b).scalar.value) == b[..DecodeStep(b).len]
  {
    var s := DecodeStep(b);
    var n := s.scalar.value as int;
    var b0: int, b1: int, b2: int, b3: int := b[0], Octet(b, 1), Octet(b, 2), Octet(b, 3);
    if s.len == 2 {
      Digit(b0 - 0xC0, b1 - 0x80, n);
    } else if s.len == 3 {
      Digit((b0 - 0xE0) * 0x40 + (b1 - 0x80), b2 - 0x80, n);
      Digit(b0 - 0xE0, b1 - 0x80, n / 0x40);
    } else if s.len == 4 {
      Digit(((b0 - 0xF0) * 0x40 + (b1 - 0x80)) * 0x40 + (b2 - 0x80), b3 - 0x80, n);
      Digit((b0 - 0xF0) * 0x40 + (b1 - 0x80), b2 - 0x80, n / 0x40);
      Digit(b0 - 0xF0, b1 - 0x80, n / 0x40 / 0x40);
    }
  }

  lemma Digit(high: int, low: int, n: int)
    requires n == high * 0x40 + low && 0 <= low < 0x40
    ensures n / 0x40 == high && n % 0x40 == low
  {
  }

  /** Decoding undoes encoding. */
  lemma {:induction false} LossyOfEncode(t: string)
    ensures Lossy(Encode(t)) == t && Strict(Encode(t)) == Some(t)
  {
    if t != [] {
      StepOfEncoded(t[0], Encode(t[1..]));
      LossyOfEncode(t[1..]);
    }
  }

  /** The strict decoder accepts exactly the encodings, and then agrees with the lossy one. */
  lemma StrictIsInverse(b: seq<byte>)
    ensures Strict(b).Some? <==> Encode(Lossy(b)) == b
    ensures Strict(b).Some? ==> Lossy(b) == Strict(b).value
    ensures forall t: string :: Strict(b) == Some(t) <==> Encode(t) == b
  {
    hide Strict, Encode, Lossy;
    StrictAccepts(b);
    LossyOfEncode(Lossy(b));
    forall t: string
      ensures Strict(b) == Some(t) <==> Encode(t) == b
    {
      LossyOfEncode(t);
    }
  }

  lemma {:induction false} StrictAccepts(b: seq<byte>)
    ensures Strict(b).Some? ==> Encode(Strict(b).value) == b && Lossy(b) == Strict(b).value
  {
    hide DecodeStep, EncodeChar;
    if b != [] && Strict(b).Some? {
      EncodedOfStep(b);
      var n := DecodeStep(b).len;
      StrictAccepts(b[n..]);
      assert b == b[..n] + b[n..];
      var t := Strict(b).value;
      assert t[1..] == Strict(b[n..]).value;
    }
  }

  lemma {:induction false} EncodeConcat(s: string, t: string)
    ensures Encode(s + t) == Encode(s) + Encode(t)
  {
    if s == [] {
      assert s + t == t;
    } else {
      assert (s + t)[1..] == s[1..] + t;
      EncodeConcat(s[1..], t);
    }
  }

  /** A step never looks past an octet below 0x80. */
  lemma StepIsLocal(a: seq<byte>, t: seq<byte>)
    requires a != [] && (t == [] || t[0] < 0x80)
    ensures DecodeStep(a + t) == DecodeStep(a)
  {
    var c := a + t;
    assert forall i :: 0 <= i < |a| ==> c[i] == a[i];
    assert t != [] ==> c[|a|] == t[0];
  }

  /** A complete character stays what it is, whatever follows. */
  lemma StepStays(a: seq<byte>, t: seq<byte>)
    requires a != [] && DecodeStep(a).scalar.Some?
    ensures DecodeStep(a + t) == DecodeStep(a)
  {
    var c := a + t;
    assert forall i :: 0 <= i < |a| ==> c[i] == a[i];
  }

  /** Lossy decoding distributes over any cut made in front of an octet below 0x80. */
  lemma {:induction false} LossyConcat(a: seq<byte>, t: seq<byte>)
    requires t == [] || t[0] < 0x80
    ensures Lossy(a + t) == Lossy(a) + Lossy(t)
  {
    if a == [] {
      assert a + t == t;
    } else {
      StepIsLocal(a, t);
      var n := DecodeStep(a).len;
      assert (a + t)[n..] == a[n..] + t;
      LossyConcat(a[n..], t);
    }
  }

  lemma LossyAscii(c: byte, t: seq<byte>)
    requires c < 0x80
    ensures Lossy([c] + t) == [c as char] + Lossy(t)
  {
    assert ([c] + t)[1..] == t;
  }

  lemma LossyOfEmpty()
    ensures Lossy([]) == []
  {
  }

  /** Lossy decoding around one ASCII octet. */
  lemma LossyAround(a: seq<byte>, c: byte, t: seq<byte>)
    requires c < 0x80
    ensures Lossy(a + [c] + t) == Lossy(a) + [c as char] + Lossy(t)
  {
    hide Lossy;
    LossyConcat(a, [c] + t);
    LossyAscii(c, t);
    assert a + [c] + t == a + ([c] + t);
  }

  /** ASCII characters of the decoded text come from octets of the input, and only from those. */
  lemma {:induction false} LossyAsciiIn(b: seq<byte>, c: byte)
    requires c < 0x80
    ensures c as char in Lossy(b) <==> c in b
  {
    if b != [] {
      var s := DecodeStep(b);
      LossyAsciiIn(b[s.len..], c);
      if b[0] >= 0x80 {
        StepOctets(b);
      }
      assert b == b[..s.len] + b[s.len..];
    }
  }

  /** All octets of a step that is not ASCII are at least 0x80. */
  lemma StepOctets(b: seq<byte>)
    requires b != [] && b[0] >= 0x80
    ensures forall i :: 0 <= i < DecodeStep(b).len ==> b[i] >= 0x80
  {
  }

  /** The decoded text ends with an ASCII character exactly when the octets do. */
  lemma {:induction false} LossyLast(b: seq<byte>, c: byte)
    requires b != [] && c < 0x80
    ensures Lossy(b) != []
    ensures Lossy(b)[|Lossy(b)| - 1] == c as char <==> b[|b| - 1] == c
  {
    var s := DecodeStep(b);
    if b[0] >= 0x80 {
      StepOctets(b);
    }
    hide DecodeStep;
    if s.len < |b| {
      LossyLast(b[s.len..], c);
    }
  }

  /** An ASCII octet occurs in the encoding only for its own character. */
  lemma OctetOf(s: string, c: byte)
    requires c < 0x80
    ensures c in Encode(s) <==> c as char in s
  {
    LossyOfEncode(s);
    LossyAsciiIn(Encode(s), c);
  }

  lemma {:induction false} AsciiLength(s: string)
    requires forall i :: 0 <= i < |s| ==> s[i] as int < 0x80
    ensures |Encode(s)| == |s|
    decreases |s|
  {
    if s != "" {
      AsciiLength(s[1..]);
    }
  }

  // ----- Ill-formed octets -----

  /** The octets are the beginning of a well-formed character, or all of it. */
  ghost predicate Begins(p: seq<byte>) {
    exists c :: p <= EncodeChar(c)
  }

  /** A longer beginning decides the step like the character itself. */
  lemma BeginDecides(b: seq<byte>, n: nat, c: char)
    requires 0 < n <= |b| && b[..n] <= EncodeChar(c)
    ensures DecodeStep(b).scalar.Some? || DecodeStep(b).len >= n
  {
    var e := EncodeChar(c);
    StepOfEncoded(c, []);
    assert e + [] == e;
    assert forall i :: 0 <= i < n ==> b[i] == e[i];
  }

  /** Every refused beginning of more than one octet could have gone on to a character. */
  lemma RefusedBegins(b: seq<byte>)
    requires b != [] && DecodeStep(b).scalar.None? && DecodeStep(b).len > 1
    ensures Begins(b[..DecodeStep(b).len])
  {
    var n := DecodeStep(b).len;
    var b0: int, b1: int, b2: int := b[0], Octet(b, 1), Octet(b, 2);
    if b0 < 0xF0 {
      var m := (b0 - 0xE0) * 0x40 + (b1 - 0x80);
      var c := (m * 0x40) as char;
      Digit(m, 0, m * 0x40);
      Digit(b0 - 0xE0, b1 - 0x80, m);
      assert b[..n] == [b[0], b[1]] && b[..n] <= EncodeChar(c);
    } else {
      var m := (b0 - 0xF0) * 0x40 + (b1 - 0x80);
      var low := if n == 3 then b2 - 0x80 else 0;
      var c := ((m * 0x40 + low) * 0x40) as char;
      Digit(m * 0x40 + low, 0, (m * 0x40 + low) * 0x40);
      Digit(m, low, m * 0x40 + low);
      Digit(b0 - 0xF0, b1 - 0x80, m);
      assert n == 2 ==> b[..n] == [b[0], b[1]];
      assert n == 3 ==> b[..n] == [b[0], b[1], b[2]];
      assert b[..n] <= EncodeChar(c);
    }
  }

  /**
   An ill-formed run that is replaced by one U+FFFD is maximal: it is one octet or the beginning of a character, and
   with the octet behind it - if there is one - it is the beginning of none (section 3.9 of the Unicode standard).
   */
  lemma ReplacedRunIsMaximal(b: seq<byte>)
    requires b != [] && DecodeStep(b).scalar.None?
    ensures var n := DecodeStep(b).len;
      && (n > 1 ==> Begins(b[..n])) && (n < |b| ==> !Begins(b[..n + 1]))
      && Lossy(b) == [REPLACEMENT] + Lossy(b[n..])
  {
    hide EncodeChar, DecodeStep;
    var n := DecodeStep(b).len;
    if n > 1 {
      RefusedBegins(b);
    }
    if n < |b| {
      forall c: char
        ensures !(b[..n + 1] <= EncodeChar(c))
      {
        if b[..n + 1] <= EncodeChar(c) {
          BeginDecides(b, n + 1, c);
          assert false;
        }
      }
    }
  }

  /** ASCII text is its own octets. */
  lemma {:induction false} AsciiOctets(s: string)
    requires forall i :: 0 <= i < |s| ==> s[i] as int < 0x80
    ensures |Encode(s)| == |s| && forall i :: 0 <= i < |s| ==> Encode(s)[i] == s[i] as int
    decreases |s|
  {
    if s != "" {
      AsciiOctets(s[1..]);
    }
  }
}
