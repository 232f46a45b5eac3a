/**
 The canonical TLS-profile encoding: an encoder that appends to a buffer, a decoder that advances a
 cursor, and the proof that they are inverse to each other on exactly the accepted bytes.
 */
module TlsProfile {
  import opened Bytes
  import Utf8

  type u16 = n: int | 0 <= n < 0x1_0000
  type u32 = n: int | 0 <= n < 0x1_0000_0000
  type u64 = n: int | 0 <= n < 0x1_0000_0000_0000_0000

  datatype Stack = Rustls | Boring | OpenSsl | RustlsAwsLc
  datatype TlsVersion = Tls12 | Tls13
  datatype GreasePolicy = Disabled | Enabled
  datatype ExtOrder = Fixed | PermutePerSession
  datatype CertPolicy = WebpkiRoots

  datatype H2Settings = H2Settings(settings: seq<(u16, u32)>, windowUpdate: u32, pseudoHeaderOrder: seq<string>)

  datatype Profile = Profile(
    specId: u32, issuedAt: u64, name: string, stack: Stack,
    cipherList: string, sigalgs: seq<string>, groups: seq<string>, alpn: seq<string>,
    grease: GreasePolicy, extOrder: ExtOrder, minNegotiated: TlsVersion, certPolicy: CertPolicy,
    h2: Option<H2Settings>)

  datatype DecodeError = Eof | BadUtf8 | BadTag(field: string) | Trailing

  datatype Result<+T> = Ok(value: T) | Err(error: DecodeError) {
    predicate IsFailure() {
      Err?
    }

    function PropagateFailure<U>(): Result<U>
      requires Err?
    {
      Err(error)
    }

    function Extract(): T
      requires Ok?
    {
      value
    }
  }

  // ----- Encoding -----

  function StackTag(s: Stack): byte {
    match s
    case Rustls => 0
    case Boring => 1
    case OpenSsl => 2
    case RustlsAwsLc => 3
  }

  /** The length as an unsigned 32-bit number: longer lengths are truncated. */
  function EncLen(n: nat): seq<byte> {
    BE(n, 4)
  }

  function EncStr(s: string): seq<byte> {
    EncLen(|Utf8.Encode(s)|) + Utf8.Encode(s)
  }

  function EncEach(v: seq<string>): seq<byte> {
    if v == [] then [] else EncStr(v[0]) + EncEach(v[1..])
  }

  function EncStrs(v: seq<string>): seq<byte> {
    EncLen(|v|) + EncEach(v)
  }

  function EncSettings(v: seq<(u16, u32)>): seq<byte> {
    if v == [] then [] else BE(v[0].0, 2) + BE(v[0].1, 4) + EncSettings(v[1..])
  }

  function EncH2(h: Option<H2Settings>): seq<byte> {
    match h
    case None => [0]
    case Some(h) => [1] + (EncLen(|h.settings|) + (EncSettings(h.settings) + (BE(h.windowUpdate, 4) + EncStrs(h.pseudoHeaderOrder))))
  }

  /** The five one-octet fields in the middle of the encoding. */
  function EncPolicies(s: Profile): seq<byte> {
    [if s.grease.Disabled? then 0 else 1, if s.extOrder.Fixed? then 0 else 1, if s.minNegotiated.Tls12? then 0 else 1, 0]
  }

  function Encoded(s: Profile): seq<byte> {
    BE(s.specId, 4) + (BE(s.issuedAt, 8) + (EncStr(s.name) + ([StackTag(s.stack)]
    + (EncStr(s.cipherList) + (EncStrs(s.sigalgs) + (EncStrs(s.groups) + (EncStrs(s.alpn)
    + (EncPolicies(s) + EncH2(s.h2)))))))))
  }

  predicate StrFits(s: string) {
    |Utf8.Encode(s)| < 0x1_0000_0000
  }

  predicate StrsFit(v: seq<string>) {
    |v| < 0x1_0000_0000 && forall i :: 0 <= i < |v| ==> StrFits(v[i])
  }

  /** Every length in the profile fits 32 bits. */
  predicate LengthsFit(s: Profile) {
    && StrFits(s.name) && StrFits(s.cipherList) && StrsFit(s.sigalgs) && StrsFit(s.groups) && StrsFit(s.alpn)
    && (s.h2.Some? ==> |s.h2.value.settings| < 0x1_0000_0000 && StrsFit(s.h2.value.pseudoHeaderOrder))
  }

  /** The growing output buffer. */
  class Output {
    var bytes: seq<byte>

    constructor ()
      ensures bytes == []
    {
      bytes := [];
    }

    method Extend(b: seq<byte>)
      modifies this
      ensures bytes == old(bytes) + b
    {
      bytes := bytes + b;
    }

    method PutLen(n: nat)
      modifies this
      ensures bytes == old(bytes) + EncLen(n)
    {
      Extend(BE(n, 4));
    }

    method PutStr(s: string)
      modifies this
      ensures bytes == old(bytes) + EncStr(s)
    {
      PutLen(|Utf8.Encode(s)|);
      Extend(Utf8.Encode(s));
    }

    method PutStrs(v: seq<string>)
      modifies this
      ensures bytes == old(bytes) + EncStrs(v)
    {
      PutLen(|v|);
      for i := 0 to |v|
        invariant bytes + EncEach(v[i..]) == old(bytes) + EncStrs(v)
      {
        assert v[i..][0] == v[i] && v[i..][1..] == v[i + 1..];
        assert bytes + EncStr(v[i]) + EncEach(v[i + 1..]) == bytes + EncEach(v[i..]);
        PutStr(v[i]);
      }
    }

    method PutSettings(v: seq<(u16, u32)>)
      modifies this
      ensures bytes == old(bytes) + EncSettings(v)
    {
      for i := 0 to |v|
        invariant bytes + EncSettings(v[i..]) == old(bytes) + EncSettings(v)
      {
        assert v[i..][0] == v[i] && v[i..][1..] == v[i + 1..];
        assert bytes + BE(v[i].0, 2) + BE(v[i].1, 4) + EncSettings(v[i + 1..]) == bytes + EncSettings(v[i..]);
        Extend(BE(v[i].0, 2));
        Extend(BE(v[i].1, 4));
      }
    }
  }

  lemma Assoc<T>(a: seq<T>, b: seq<T>, c: seq<T>)
    ensures a + (b + c) == a + b + c
  {
  }

  /** `canonical_encode`. */
  method CanonicalEncode(s: Profile) returns (bytes: seq<byte>)
    ensures bytes == Encoded(s)
  {
    hide *;
    EncodedParts(s);
    var o := new Output();
    o.Extend(BE(s.specId, 4));
    o.Extend(BE(s.issuedAt, 8));
    o.PutStr(s.name);
    o.Extend([StackTag(s.stack)]);
    o.PutStr(s.cipherList);
    o.PutStrs(s.sigalgs);
    o.PutStrs(s.groups);
    o.PutStrs(s.alpn);
    assert o.bytes == EncodedFront(s) by {
      FrontParts(s);
    }
    o.Extend([if s.grease.Disabled? then 0 else 1]);
    o.Extend([if s.extOrder.Fixed? then 0 else 1]);
    o.Extend([if s.minNegotiated.Tls12? then 0 else 1]);
    o.Extend([0]);
    PolicyParts(s, EncodedFront(s));
    ghost var middle := o.bytes;
    match s.h2 {
      case None =>
        o.Extend([0]);
      case Some(h2) =>
        o.Extend([1]);
        o.PutLen(|h2.settings|);
        o.PutSettings(h2.settings);
        o.Extend(BE(h2.windowUpdate, 4));
        o.PutStrs(h2.pseudoHeaderOrder);
    }
    H2Parts(s.h2, middle);
    bytes := o.bytes;
  }

  function EncodedFront(s: Profile): seq<byte> {
    [] + BE(s.specId, 4) + BE(s.issuedAt, 8) + EncStr(s.name) + [StackTag(s.stack)]
    + EncStr(s.cipherList) + EncStrs(s.sigalgs) + EncStrs(s.groups) + EncStrs(s.alpn)
  }

  lemma FrontParts(s: Profile)
    ensures EncodedFront(s) == [] + BE(s.specId, 4) + BE(s.issuedAt, 8) + EncStr(s.name) + [StackTag(s.stack)]
      + EncStr(s.cipherList) + EncStrs(s.sigalgs) + EncStrs(s.groups) + EncStrs(s.alpn)
  {
  }

  lemma EncodedParts(s: Profile)
    ensures Encoded(s) == EncodedFront(s) + EncPolicies(s) + EncH2(s.h2)
  {
    hide BE, EncStr, EncStrs, EncPolicies, EncH2, StackTag;
    var tail := EncPolicies(s) + EncH2(s.h2);
    var a, b, c, d := BE(s.specId, 4), BE(s.issuedAt, 8), EncStr(s.name), [StackTag(s.stack)];
    var e, f, g, h := EncStr(s.cipherList), EncStrs(s.sigalgs), EncStrs(s.groups), EncStrs(s.alpn);
    Regroup(a, b, c, d, e + (f + (g + (h + tail))));
    Regroup(e, f, g, h, tail);
    Assoc(a + b + c + d, e + f + g + h, tail);
    Regroup5(a + b + c + d, e, f, g, h);
    assert [] + a == a;
    Assoc(EncodedFront(s), EncPolicies(s), EncH2(s.h2));
  }

  lemma Regroup<T>(a: seq<T>, b: seq<T>, c: seq<T>, d: seq<T>, e: seq<T>)
    ensures a + (b + (c + (d + e))) == a + b + c + d + e
  {
  }

  lemma Regroup5<T>(a: seq<T>, b: seq<T>, c: seq<T>, d: seq<T>, e: seq<T>)
    ensures a + (b + c + d + e) == a + b + c + d + e
  {
  }

  lemma PolicyParts(s: Profile, front: seq<byte>)
    ensures front + [if s.grease.Disabled? then 0 else 1] + [if s.extOrder.Fixed? then 0 else 1]
      + [if s.minNegotiated.Tls12? then 0 else 1] + [0] == front + EncPolicies(s)
  {
  }

  lemma H2Parts(h: Option<H2Settings>, front: seq<byte>)
    ensures front + EncH2(h) ==
      match h
      case None => front + [0]
      case Some(h) => front + [1] + EncLen(|h.settings|) + EncSettings(h.settings) + BE(h.windowUpdate, 4) + EncStrs(h.pseudoHeaderOrder)
  {
    hide BE, EncLen, EncSettings, EncStrs;
    match h
    case None =>
    case Some(h) =>
      Regroup([1], EncLen(|h.settings|), EncSettings(h.settings), BE(h.windowUpdate, 4), EncStrs(h.pseudoHeaderOrder));
      Regroup(front, [1], EncLen(|h.settings|), EncSettings(h.settings), BE(h.windowUpdate, 4) + EncStrs(h.pseudoHeaderOrder));
      Assoc(front + [1] + EncLen(|h.settings|) + EncSettings(h.settings), BE(h.windowUpdate, 4), EncStrs(h.pseudoHeaderOrder));
  }

  // ----- Decoding, as functions on the bytes not yet read -----

  datatype Got<+T> = Got(value: T, rest: seq<byte>) | Bad(error: DecodeError) {
    predicate IsFailure() {
      Bad?
    }

    function PropagateFailure<U>(): Got<U>
      requires Bad?
    {
      Bad(error)
    }

    function Extract(): (T, seq<byte>)
      requires Got?
    {
      (value, rest)
    }
  }

  function ReadBytes(b: seq<byte>, n: nat): (g: Got<seq<byte>>)
    ensures g.Got? ==> |g.value| == n && b == g.value + g.rest
  {
    if n > |b| then Bad(Eof) else Got(b[..n], b[n..])
  }

  function ReadUint(b: seq<byte>, k: nat): (g: Got<nat>)
    ensures g.Got? ==> g.value < Pow256(k) && |b| == k + |g.rest|
  {
    var (s, rest) :- ReadBytes(b, k);
    Got(FromBE(s), rest)
  }

  function ReadStr(b: seq<byte>): (g: Got<string>)
    ensures g.Got? ==> |g.rest| < |b|
  {
    var (n, r) :- ReadUint(b, 4);
    var (s, rest) :- ReadBytes(r, n);
    match Utf8.Strict(s)
    case None => Bad(BadUtf8)
    case Some(t) => Got(t, rest)
  }

  function ReadEach(b: seq<byte>, n: nat): (g: Got<seq<string>>)
    ensures g.Got? ==> |g.rest| <= |b| && |g.value| == n
  {
    if n == 0 then Got([], b)
    else
      var (s, r) :- ReadStr(b);
      var (v, rest) :- ReadEach(r, n - 1);
      Got([s] + v, rest)
  }

  function ReadStrs(b: seq<byte>): Got<seq<string>> {
    var (n, r) :- ReadUint(b, 4);
    ReadEach(r, n)
  }

  function ReadSettings(b: seq<byte>, n: nat): (g: Got<seq<(u16, u32)>>)
    ensures g.Got? ==> |g.value| == n
  {
    if n == 0 then Got([], b)
    else
      Powers();
      var (id, r) :- ReadUint(b, 2);
      var (val, r2) :- ReadUint(r, 4);
      var (v, rest) :- ReadSettings(r2, n - 1);
      Got([(id, val)] + v, rest)
  }

  /** A one-octet tag that must be below `n`. */
  function ReadTag(b: seq<byte>, n: nat, field: string): (g: Got<nat>)
    ensures g.Got? ==> g.value < n
  {
    var (t, rest) :- ReadUint(b, 1);
    if t < n then Got(t, rest) else Bad(BadTag(field))
  }

  function ReadH2(b: seq<byte>): Got<Option<H2Settings>> {
    var (t, r) :- ReadTag(b, 2, "h2");
    if t == 0 then Got(None, r)
    else
      Powers();
      var (n, r1) :- ReadUint(r, 4);
      var (settings, r2) :- ReadSettings(r1, n);
      var (window, r3) :- ReadUint(r2, 4);
      var (order, rest) :- ReadStrs(r3);
      Got(Some(H2Settings(settings, window, order)), rest)
  }

  function StackOf(t: nat): Stack {
    if t == 0 then Rustls else if t == 1 then Boring else if t == 2 then OpenSsl else RustlsAwsLc
  }

  /** The four policy octets. */
  function ReadPolicies(b: seq<byte>): Got<(GreasePolicy, ExtOrder, TlsVersion)> {
    var (grease, r1) :- ReadTag(b, 2, "grease");
    var (order, r2) :- ReadTag(r1, 2, "ext_order");
    var (version, r3) :- ReadTag(r2, 2, "tls_version");
    var (cert, rest) :- ReadTag(r3, 1, "cert_policy");
    Got((if grease == 0 then Disabled else Enabled, if order == 0 then Fixed else PermutePerSession,
         if version == 0 then Tls12 else Tls13), rest)
  }

  function ReadProfile(b: seq<byte>): Got<Profile> {
    Powers();
    var (specId, r1) :- ReadUint(b, 4);
    var (issuedAt, r2) :- ReadUint(r1, 8);
    var (name, r3) :- ReadStr(r2);
    var (stack, r4) :- ReadTag(r3, 4, "stack");
    var (cipherList, r5) :- ReadStr(r4);
    var (sigalgs, r6) :- ReadStrs(r5);
    var (groups, r7) :- ReadStrs(r6);
    var (alpn, r8) :- ReadStrs(r7);
    var (p, r9) :- ReadPolicies(r8);
    var (h2, rest) :- ReadH2(r9);
    Got(Profile(specId, issuedAt, name, StackOf(stack), cipherList, sigalgs, groups, alpn, p.0, p.1, p.2, WebpkiRoots, h2), rest)
  }

  function Decoded(b: seq<byte>): Result<Profile> {
    match ReadProfile(b)
    case Bad(e) => Err(e)
    case Got(s, rest) => if rest == [] then Ok(s) else Err(Trailing)
  }

  // ----- The cursor -----

  /** `Dec`. */
  class Dec {
    const b: seq<byte>
    var i: nat

    ghost predicate Valid()
      reads this
    {
      i <= |b|
    }

    ghost function Rest(): seq<byte>
      reads this
      requires Valid()
    {
      b[i..]
    }

    constructor (b: seq<byte>)
      ensures Valid() && this.b == b && i == 0
    {
      this.b := b;
      i := 0;
    }

    /** The outcome of a read: the value and the bytes left, or the error. */
    ghost predicate Reads<T>(r: Result<T>, g: Got<T>)
      reads this
      requires Valid()
    {
      match r
      case Ok(v) => g == Got(v, Rest())
      case Err(e) => g == Bad(e)
    }

    method Take(n: nat) returns (r: Result<seq<byte>>)
      requires Valid()
      modifies this
      ensures Valid() && Reads(r, ReadBytes(old(Rest()), n))
    {
      var end := i + n;
      if end > |b| {
        return Err(Eof);
      }
      r := Ok(b[i..end]);
      assert b[i..][..n] == b[i..end] && b[i..][n..] == b[end..];
      i := end;
    }

    method Uint(k: nat) returns (r: Result<nat>)
      requires Valid()
      modifies this
      ensures Valid() && Reads(r, ReadUint(old(Rest()), k))
    {
      var s :- Take(k);
      r := Ok(FromBE(s));
    }

    method S() returns (r: Result<string>)
      requires Valid()
      modifies this
      ensures Valid() && Reads(r, ReadStr(old(Rest())))
    {
      var n :- Uint(4);
      var s :- Take(n);
      var t := Utf8.Strict(s);
      r := if t.None? then Err(BadUtf8) else Ok(t.value);
    }

    method Strs() returns (r: Result<seq<string>>)
      requires Valid()
      modifies this
      ensures Valid() && Reads(r, ReadStrs(old(Rest())))
    {
      hide ReadStr, ReadUint, Utf8.Encode;
      var n :- Uint(4);
      var v: seq<string> := [];
      ghost var start := Rest();
      PrefixedNone(ReadEach(start, n));
      for k := 0 to n
        invariant Valid()
        invariant ReadEach(start, n) == Prefixed(v, ReadEach(Rest(), n - k))
      {
        ghost var more := ReadStr(Rest());
        var s :- S();
        PrefixedStep(v, s, ReadEach(Rest(), n - k - 1));
        v := v + [s];
      }
      assert v + [] == v;
      r := Ok(v);
    }

    method Settings(n: nat) returns (r: Result<seq<(u16, u32)>>)
      requires Valid()
      modifies this
      ensures Valid() && Reads(r, ReadSettings(old(Rest()), n))
    {
      hide ReadUint;
      UintBounds();
      var v: seq<(u16, u32)> := [];
      ghost var start := Rest();
      Powers();
      PrefixedNone(ReadSettings(start, n));
      for k := 0 to n
        invariant Valid()
        invariant ReadSettings(start, n) == Prefixed(v, ReadSettings(Rest(), n - k))
      {
        var id :- Uint(2);
        var val :- Uint(4);
        PrefixedStep(v, (id, val), ReadSettings(Rest(), n - k - 1));
        v := v + [(id, val)];
      }
      assert v + [] == v;
      r := Ok(v);
    }

    /** The four policy octets. */
    method Policies() returns (r: Result<(GreasePolicy, ExtOrder, TlsVersion)>)
      requires Valid()
      modifies this
      ensures Valid() && Reads(r, ReadPolicies(old(Rest())))
    {
      hide ReadTag;
      var grease :- Tag(2, "grease");
      var order :- Tag(2, "ext_order");
      var version :- Tag(2, "tls_version");
      var cert :- Tag(1, "cert_policy");
      r := Ok((if grease == 0 then Disabled else Enabled, if order == 0 then Fixed else PermutePerSession,
         if version == 0 then Tls12 else Tls13));
    }

    /** The optional HTTP/2 settings. */
    method H2() returns (r: Result<Option<H2Settings>>)
      requires Valid()
      modifies this
      ensures Valid() && Reads(r, ReadH2(old(Rest())))
    {
      hide ReadStrs, ReadUint, ReadSettings, ReadTag;
      Powers();
      UintBounds();
      var tag :- Tag(2, "h2");
      if tag == 0 {
        return Ok(None);
      }
      var n :- Uint(4);
      var settings :- Settings(n);
      var window :- Uint(4);
      var names :- Strs();
      r := Ok(Some(H2Settings(settings, window, names)));
    }

    method Tag(n: nat, field: string) returns (r: Result<nat>)
      requires Valid()
      modifies this
      ensures Valid() && Reads(r, ReadTag(old(Rest()), n, field))
    {
      var t :- Uint(1);
      r := if t < n then Ok(t) else Err(BadTag(field));
    }
  }

  function Prefixed<T>(v: seq<T>, g: Got<seq<T>>): Got<seq<T>> {
    if g.Bad? then g else Got(v + g.value, g.rest)
  }

  lemma PrefixedNone<T>(g: Got<seq<T>>)
    ensures Prefixed([], g) == g
  {
    if g.Got? {
      assert [] + g.value == g.value;
    }
  }

  lemma PrefixedStep<T>(v: seq<T>, x: T, g: Got<seq<T>>)
    ensures Prefixed(v + [x], g) == Prefixed(v, if g.Bad? then g else Got([x] + g.value, g.rest))
  {
    if g.Got? {
      assert v + [x] + g.value == v + ([x] + g.value);
    }
  }

  /** `decode`. */
  method Decode(b: seq<byte>) returns (r: Result<Profile>)
    ensures r == Decoded(b)
  {
    hide ReadStr, ReadStrs, ReadUint, ReadTag, ReadPolicies, ReadH2;
    Powers();
    UintBounds();
    var d := new Dec(b);
    assert b[0..] == b;
    var specId :- d.Uint(4);
    var issuedAt :- d.Uint(8);
    var name :- d.S();
    var stack :- d.Tag(4, "stack");
    var cipherList :- d.S();
    var sigalgs :- d.Strs();
    var groups :- d.Strs();
    var alpn :- d.Strs();
    var p :- d.Policies();
    var h2 :- d.H2();
    if d.i != |b| {
      return Err(Trailing);
    }
    r := Ok(Profile(specId, issuedAt, name, StackOf(stack), cipherList, sigalgs, groups, alpn, p.0, p.1, p.2, WebpkiRoots, h2));
  }

  lemma UintBounds()
    ensures forall s: seq<byte>, k: nat :: ReadUint(s, k).Got? ==> ReadUint(s, k).value < Pow256(k)
    ensures forall s: seq<byte>, n: nat, f: string :: ReadTag(s, n, f).Got? ==> ReadTag(s, n, f).value < n
  {
  }

  // ----- Inverse laws -----

  lemma UintBack(n: nat, k: nat, rest: seq<byte>)
    requires n < Pow256(k)
    ensures ReadUint(BE(n, k) + rest, k) == Got(n, rest)
  {
    FromBEOfBE(n, k);
    assert (BE(n, k) + rest)[..k] == BE(n, k) && (BE(n, k) + rest)[k..] == rest;
  }

  lemma UintForth(b: seq<byte>, k: nat)
    requires ReadUint(b, k).Got?
    ensures b == BE(ReadUint(b, k).value, k) + ReadUint(b, k).rest && ReadUint(b, k).value < Pow256(k)
  {
    BEOfFromBE(b[..k]);
  }

  lemma StrBack(s: string, rest: seq<byte>)
    requires StrFits(s)
    ensures ReadStr(EncStr(s) + rest) == Got(s, rest)
  {
    hide ReadUint, BE;
    var e := Utf8.Encode(s);
    Powers();
    Assoc(EncLen(|e|), e, rest);
    UintBack(|e|, 4, e + rest);
    assert (e + rest)[..|e|] == e && (e + rest)[|e|..] == rest;
    Utf8.LossyOfEncode(s);
  }

  lemma StrForth(b: seq<byte>)
    requires ReadStr(b).Got?
    ensures b == EncStr(ReadStr(b).value) + ReadStr(b).rest && StrFits(ReadStr(b).value)
  {
    hide ReadUint, BE, Utf8.Encode, Utf8.Strict;
    Powers();
    UintForth(b, 4);
    var g := ReadUint(b, 4);
    var t := ReadBytes(g.rest, g.value);
    Utf8.StrictIsInverse(t.value);
    Assoc(EncLen(g.value), t.value, t.rest);
  }

  lemma {:induction false} EachBack(v: seq<string>, rest: seq<byte>)
    requires forall i :: 0 <= i < |v| ==> StrFits(v[i])
    ensures ReadEach(EncEach(v) + rest, |v|) == Got(v, rest)
    decreases |v|
  {
    hide ReadStr, EncStr, StrFits;
    if v == [] {
      assert EncEach(v) + rest == rest;
    } else {
      Assoc(EncStr(v[0]), EncEach(v[1..]), rest);
      StrBack(v[0], EncEach(v[1..]) + rest);
      EachBack(v[1..], rest);
      assert [v[0]] + v[1..] == v;
    }
  }

  lemma {:induction false} EachForth(b: seq<byte>, n: nat)
    requires ReadEach(b, n).Got?
    ensures b == EncEach(ReadEach(b, n).value) + ReadEach(b, n).rest
    ensures |ReadEach(b, n).value| == n && forall i :: 0 <= i < n ==> StrFits(ReadEach(b, n).value[i])
    decreases n
  {
    hide ReadStr, EncStr, StrFits;
    if n > 0 {
      StrForth(b);
      var s := ReadStr(b);
      EachForth(s.rest, n - 1);
      var more := ReadEach(s.rest, n - 1);
      assert ([s.value] + more.value)[1..] == more.value;
      Assoc(EncStr(s.value), EncEach(more.value), more.rest);
    }
  }

  lemma StrsBack(v: seq<string>, rest: seq<byte>)
    requires StrsFit(v)
    ensures ReadStrs(EncStrs(v) + rest) == Got(v, rest)
  {
    hide ReadUint, BE, ReadEach, EncEach, StrFits;
    Powers();
    Assoc(EncLen(|v|), EncEach(v), rest);
    UintBack(|v|, 4, EncEach(v) + rest);
    EachBack(v, rest);
  }

  lemma StrsForth(b: seq<byte>)
    requires ReadStrs(b).Got?
    ensures b == EncStrs(ReadStrs(b).value) + ReadStrs(b).rest && StrsFit(ReadStrs(b).value)
  {
    hide ReadUint, BE, ReadEach, EncEach, StrFits;
    Powers();
    UintForth(b, 4);
    var g := ReadUint(b, 4);
    EachForth(g.rest, g.value);
    Assoc(EncLen(g.value), EncEach(ReadStrs(b).value), ReadStrs(b).rest);
  }

  lemma {:induction false} SettingsBack(v: seq<(u16, u32)>, rest: seq<byte>)
    ensures ReadSettings(EncSettings(v) + rest, |v|) == Got(v, rest)
    decreases |v|
  {
    hide ReadUint, BE;
    if v == [] {
      assert EncSettings(v) + rest == rest;
    } else {
      Powers();
      var more := EncSettings(v[1..]) + rest;
      assert EncSettings(v) + rest == BE(v[0].0, 2) + (BE(v[0].1, 4) + more);
      UintBack(v[0].0, 2, BE(v[0].1, 4) + more);
      UintBack(v[0].1, 4, more);
      SettingsBack(v[1..], rest);
      assert [(v[0].0, v[0].1)] + v[1..] == v;
    }
  }

  lemma {:induction false} SettingsForth(b: seq<byte>, n: nat)
    requires ReadSettings(b, n).Got?
    ensures b == EncSettings(ReadSettings(b, n).value) + ReadSettings(b, n).rest
    decreases n
  {
    hide ReadUint, BE;
    if n > 0 {
      Powers();
      UintForth(b, 2);
      var id := ReadUint(b, 2);
      UintForth(id.rest, 4);
      var val := ReadUint(id.rest, 4);
      SettingsForth(val.rest, n - 1);
      var more := ReadSettings(val.rest, n - 1);
      assert ([(id.value, val.value)] + more.value)[1..] == more.value;
      assert BE(id.value, 2) + (BE(val.value, 4) + (EncSettings(more.value) + more.rest))
          == BE(id.value, 2) + BE(val.value, 4) + EncSettings(more.value) + more.rest;
    }
  }

  lemma TagBack(t: byte, n: nat, field: string, rest: seq<byte>)
    requires t < n
    ensures ReadTag([t] + rest, n, field) == Got(t, rest)
  {
    Powers();
    OneOctet(t);
    UintBack(t, 1, rest);
  }

  lemma OneOctet(t: byte)
    ensures BE(t, 1) == [t]
  {
    assert BE(t, 1) == BE(t / 0x100, 0) + [t % 0x100];
  }

  lemma TagForth(b: seq<byte>, n: nat, field: string)
    requires n <= 0x100 && ReadTag(b, n, field).Got?
    ensures b == [ReadTag(b, n, field).value] + ReadTag(b, n, field).rest
  {
    Powers();
    UintForth(b, 1);
    OneOctet(ReadTag(b, n, field).value);
  }

  lemma PoliciesBack(s: Profile, rest: seq<byte>)
    ensures ReadPolicies(EncPolicies(s) + rest) == Got((s.grease, s.extOrder, s.minNegotiated), rest)
  {
    hide ReadTag;
    var e := EncPolicies(s);
    assert e + rest == [e[0]] + ([e[1]] + ([e[2]] + ([e[3]] + rest)));
    TagBack(e[0], 2, "grease", [e[1]] + ([e[2]] + ([e[3]] + rest)));
    TagBack(e[1], 2, "ext_order", [e[2]] + ([e[3]] + rest));
    TagBack(e[2], 2, "tls_version", [e[3]] + rest);
    TagBack(e[3], 1, "cert_policy", rest);
  }

  lemma PoliciesForth(b: seq<byte>, s: Profile)
    requires ReadPolicies(b).Got? && ReadPolicies(b).value == (s.grease, s.extOrder, s.minNegotiated)
    ensures b == EncPolicies(s) + ReadPolicies(b).rest
  {
    hide ReadTag;
    UintBounds();
    var r1 := ReadTag(b, 2, "grease");
    TagForth(b, 2, "grease");
    var r2 := ReadTag(r1.rest, 2, "ext_order");
    TagForth(r1.rest, 2, "ext_order");
    var r3 := ReadTag(r2.rest, 2, "tls_version");
    TagForth(r2.rest, 2, "tls_version");
    var r4 := ReadTag(r3.rest, 1, "cert_policy");
    TagForth(r3.rest, 1, "cert_policy");
  }

  predicate H2Fits(h: Option<H2Settings>) {
    h.Some? ==> |h.value.settings| < 0x1_0000_0000 && StrsFit(h.value.pseudoHeaderOrder)
  }

  lemma H2Back(h: Option<H2Settings>, rest: seq<byte>)
    requires H2Fits(h)
    ensures ReadH2(EncH2(h) + rest) == Got(h, rest)
  {
    hide ReadUint, BE, ReadTag, ReadSettings, ReadStrs, EncStrs, EncSettings, StrsFit;
    Powers();
    match h {
      case None =>
        TagBack(0, 2, "h2", rest);
      case Some(h) =>
        var d := EncStrs(h.pseudoHeaderOrder) + rest;
        var c := BE(h.windowUpdate, 4) + d;
        var t := EncSettings(h.settings) + c;
        var a := EncLen(|h.settings|) + t;
        H2Shape(h, rest);
        TagBack(1, 2, "h2", a);
        UintBack(|h.settings|, 4, t);
        SettingsBack(h.settings, c);
        UintBack(h.windowUpdate, 4, d);
        StrsBack(h.pseudoHeaderOrder, rest);
    }
  }

  lemma H2Shape(h: H2Settings, rest: seq<byte>)
    ensures EncH2(Some(h)) + rest
      == [1] + (EncLen(|h.settings|) + (EncSettings(h.settings) + (BE(h.windowUpdate, 4) + (EncStrs(h.pseudoHeaderOrder) + rest))))
  {
    hide BE, EncLen, EncStrs, EncSettings;
    var a, b, c, d := EncLen(|h.settings|), EncSettings(h.settings), BE(h.windowUpdate, 4), EncStrs(h.pseudoHeaderOrder);
    Assoc([1], a + (b + (c + d)), rest);
    Assoc(a, b + (c + d), rest);
    Assoc(b, c + d, rest);
    Assoc(c, d, rest);
  }

  lemma H2Forth(b: seq<byte>)
    requires ReadH2(b).Got?
    ensures b == EncH2(ReadH2(b).value) + ReadH2(b).rest && H2Fits(ReadH2(b).value)
  {
    hide ReadUint, BE, ReadTag, ReadSettings, ReadStrs, EncStrs, EncSettings, StrsFit;
    Powers();
    UintBounds();
    TagForth(b, 2, "h2");
    var t := ReadTag(b, 2, "h2");
    if t.value != 0 {
      UintForth(t.rest, 4);
      var n := ReadUint(t.rest, 4);
      SettingsForth(n.rest, n.value);
      var v := ReadSettings(n.rest, n.value);
      UintForth(v.rest, 4);
      var w := ReadUint(v.rest, 4);
      StrsForth(w.rest);
      H2Shape(ReadH2(b).value.value, ReadH2(b).rest);
    }
  }

  lemma StackTags(s: Stack)
    ensures StackTag(s) < 4 && StackOf(StackTag(s)) == s
    ensures forall t: nat :: t < 4 ==> StackTag(StackOf(t)) == t
  {
  }

  /** The encoding of a profile in front of other bytes, one field at a time. */
  lemma EncodedShape(s: Profile, rest: seq<byte>)
    ensures Encoded(s) + rest == BE(s.specId, 4) + (BE(s.issuedAt, 8) + (EncStr(s.name) + ([StackTag(s.stack)]
      + (EncStr(s.cipherList) + (EncStrs(s.sigalgs) + (EncStrs(s.groups) + (EncStrs(s.alpn)
      + (EncPolicies(s) + (EncH2(s.h2) + rest)))))))))
  {
    hide BE, EncStr, EncStrs, EncPolicies, EncH2, StackTag;
    var a, b, c, d := BE(s.specId, 4), BE(s.issuedAt, 8), EncStr(s.name), [StackTag(s.stack)];
    var e, f, g, h := EncStr(s.cipherList), EncStrs(s.sigalgs), EncStrs(s.groups), EncStrs(s.alpn);
    var p, q := EncPolicies(s), EncH2(s.h2);
    Assoc(a, b + (c + (d + (e + (f + (g + (h + (p + q))))))), rest);
    Assoc(b, c + (d + (e + (f + (g + (h + (p + q)))))), rest);
    Assoc(c, d + (e + (f + (g + (h + (p + q))))), rest);
    Assoc(d, e + (f + (g + (h + (p + q)))), rest);
    Assoc(e, f + (g + (h + (p + q))), rest);
    Assoc(f, g + (h + (p + q)), rest);
    Assoc(g, h + (p + q), rest);
    Assoc(h, p + q, rest);
    Assoc(p, q, rest);
  }

  /** Reading back an encoding, whatever follows. */
  lemma ProfileBack(s: Profile, rest: seq<byte>)
    requires LengthsFit(s)
    ensures ReadProfile(Encoded(s) + rest) == Got(s, rest)
  {
    hide BE, EncStr, EncStrs, EncPolicies, EncH2, StackTag, StackOf, ReadUint, ReadStr, ReadStrs, ReadTag,
         ReadPolicies, ReadH2, StrFits, StrsFit, Encoded;
    Powers();
    EncodedShape(s, rest);
    StackTags(s.stack);
    var r9 := EncH2(s.h2) + rest;
    var r8 := EncPolicies(s) + r9;
    var r7 := EncStrs(s.alpn) + r8;
    var r6 := EncStrs(s.groups) + r7;
    var r5 := EncStrs(s.sigalgs) + r6;
    var r4 := EncStr(s.cipherList) + r5;
    var r3 := [StackTag(s.stack)] + r4;
    var r2 := EncStr(s.name) + r3;
    var r1 := BE(s.issuedAt, 8) + r2;
    UintBack(s.specId, 4, r1);
    UintBack(s.issuedAt, 8, r2);
    StrBack(s.name, r3);
    TagBack(StackTag(s.stack), 4, "stack", r4);
    StrBack(s.cipherList, r5);
    StrsBack(s.sigalgs, r6);
    StrsBack(s.groups, r7);
    StrsBack(s.alpn, r8);
    PoliciesBack(s, r9);
    H2Back(s.h2, rest);
    assert s.certPolicy == WebpkiRoots;
  }

  /** Whatever is read is the encoding of what was read, and its lengths fit. */
  lemma ProfileForth(b: seq<byte>)
    requires ReadProfile(b).Got?
    ensures b == Encoded(ReadProfile(b).value) + ReadProfile(b).rest && LengthsFit(ReadProfile(b).value)
  {
    hide BE, EncStr, EncStrs, EncPolicies, EncH2, StackTag, StackOf, ReadUint, ReadStr, ReadStrs, ReadTag,
         ReadPolicies, ReadH2, StrFits, StrsFit, Encoded;
    Powers();
    UintBounds();
    var s := ReadProfile(b).value;
    EncodedShape(s, ReadProfile(b).rest);
    StackTags(s.stack);
    UintForth(b, 4);
    var r1 := ReadUint(b, 4).rest;
    UintForth(r1, 8);
    var r2 := ReadUint(r1, 8).rest;
    StrForth(r2);
    var r3 := ReadStr(r2).rest;
    TagForth(r3, 4, "stack");
    var r4 := ReadTag(r3, 4, "stack").rest;
    StrForth(r4);
    var r5 := ReadStr(r4).rest;
    StrsForth(r5);
    var r6 := ReadStrs(r5).rest;
    StrsForth(r6);
    var r7 := ReadStrs(r6).rest;
    StrsForth(r7);
    var r8 := ReadStrs(r7).rest;
    PoliciesForth(r8, s);
    H2Forth(ReadPolicies(r8).rest);
  }

  /** Decoding undoes encoding exactly for profiles whose lengths fit 32 bits. */
  lemma DecodeOfEncode(s: Profile)
    ensures Decoded(Encoded(s)) == Ok(s) <==> LengthsFit(s)
  {
    hide Encoded, ReadProfile, LengthsFit;
    var b := Encoded(s);
    assert b + [] == b;
    if LengthsFit(s) {
      ProfileBack(s, []);
    }
    if Decoded(b) == Ok(s) {
      ProfileForth(b);
    }
  }

  /** Accepted bytes are the encoding of what they decode to. */
  lemma EncodeOfDecode(b: seq<byte>)
    requires Decoded(b).Ok?
    ensures Encoded(Decoded(b).value) == b && LengthsFit(Decoded(b).value)
  {
    hide Encoded, ReadProfile, LengthsFit;
    ProfileForth(b);
    assert Encoded(Decoded(b).value) + [] == Encoded(Decoded(b).value);
  }

  /** Every proper extension of an accepted encoding has trailing bytes. */
  lemma ExtensionRejected(s: Profile, more: seq<byte>)
    requires LengthsFit(s) && more != []
    ensures Decoded(Encoded(s) + more) == Err(Trailing)
  {
    hide Encoded, ReadProfile, LengthsFit;
    ProfileBack(s, more);
  }

  /** Every proper prefix of an accepted encoding is rejected. */
  lemma PrefixRejected(s: Profile, cut: nat)
    requires LengthsFit(s) && cut < |Encoded(s)|
    ensures Decoded(Encoded(s)[..cut]).Err?
  {
    hide Encoded, ReadProfile, LengthsFit;
    var e := Encoded(s);
    var p := e[..cut];
    if Decoded(p).Ok? {
      EncodeOfDecode(p);
      assert e == p + e[cut..];
      ProfileBack(Decoded(p).value, e[cut..]);
      assert e + [] == e;
      ProfileBack(s, []);
    }
  }
}
