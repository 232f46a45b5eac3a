/** Octets, big-endian integers and substring search, as the Rust and TypeScript sources use them. */
module Bytes {
  type byte = b: int | 0 <= b < 0x100

  datatype Option<+T> = None | Some(value: T) {
    function GetOr(default: T): T {
      if Some? then value else default
    }
  }

  const CR: byte := 13
  const LF: byte := 10
  const CRLF: seq<byte> := [13, 10]

  /** 256 to the power k. */
  function Pow256(k: nat): (p: nat)
    ensures p >= 1
  {
    if k == 0 then 1 else 0x100 * Pow256(k - 1)
  }

  lemma Powers()
    ensures Pow256(1) == 0x100 && Pow256(2) == 0x1_0000
    ensures Pow256(4) == 0x1_0000_0000 && Pow256(8) == 0x1_0000_0000_0000_0000
  {
    assert Pow256(1) == 0x100 && Pow256(2) == 0x1_0000 && Pow256(3) == 0x100_0000 && Pow256(4) == 0x1_0000_0000;
    assert Pow256(5) == 0x100_0000_0000 && Pow256(6) == 0x1_0000_0000_0000 && Pow256(7) == 0x100_0000_0000_0000;
  }

  /** The k-octet big-endian form of n, which keeps only n modulo 256^k (a truncating cast). */
  function BE(n: nat, k: nat): (b: seq<byte>)
    ensures |b| == k
  {
    if k == 0 then [] else BE(n / 0x100, k - 1) + [n % 0x100]
  }

  /** The unsigned big-endian value of an octet string. */
  function FromBE(b: seq<byte>): (n: nat)
    ensures n < Pow256(|b|)
  {
    if b == [] then 0 else FromBE(b[..|b| - 1]) * 0x100 + b[|b| - 1]
  }

  lemma {:induction false} FromBEOfBE(n: nat, k: nat)
    ensures n < Pow256(k) ==> FromBE(BE(n, k)) == n
    ensures FromBE(BE(n, k)) <= n
  {
    if k > 0 {
      var b := BE(n, k);
      assert b[..|b| - 1] == BE(n / 0x100, k - 1);
      FromBEOfBE(n / 0x100, k - 1);
    }
  }

  lemma {:induction false} BEOfFromBE(b: seq<byte>)
    ensures BE(FromBE(b), |b|) == b
  {
    if b != [] {
      BEOfFromBE(b[..|b| - 1]);
      assert FromBE(b) / 0x100 == FromBE(b[..|b| - 1]) && FromBE(b) % 0x100 == b[|b| - 1];
    }
  }

  /** A zero octet in front does not change the value. */
  lemma {:induction false} FromBELeadingZero(b: seq<byte>)
    ensures FromBE([0] + b) == FromBE(b)
  {
    var z := [0] + b;
    if b == [] {
      assert z[..|z| - 1] == [];
    } else {
      assert z[..|z| - 1] == [0] + b[..|b| - 1];
      FromBELeadingZero(b[..|b| - 1]);
    }
  }

  /** Whether `needle` stands at position `p` of `hay`. */
  predicate At<T(==)>(hay: seq<T>, needle: seq<T>, p: nat) {
    p + |needle| <= |hay| && hay[p..p + |needle|] == needle
  }

  /** The first position at or after `from` where `needle` occurs in `hay`, or -1: `Buffer.indexOf`. */
  function IndexOf<T(==)>(hay: seq<T>, needle: seq<T>, from: nat): (p: int)
    ensures p == -1 || (from <= p && At(hay, needle, p))
    ensures forall q: nat :: from <= q && At(hay, needle, q) ==> 0 <= p <= q
    decreases |hay| - from
  {
    if from + |needle| > |hay| then -1
    else if At(hay, needle, from) then from
    else if from == |hay| then -1
    else IndexOf(hay, needle, from + 1)
  }

  /** `IndexOf` is characterised by an occurrence with none before it. */
  lemma IndexOfIs<T>(hay: seq<T>, needle: seq<T>, from: nat, p: nat)
    requires from <= p && At(hay, needle, p)
    requires forall q: nat :: from <= q < p ==> !At(hay, needle, q)
    ensures IndexOf(hay, needle, from) == p
  {
  }

  /** A search that succeeds does not look past its match: appending changes nothing. */
  lemma IndexOfExtend<T>(hay: seq<T>, more: seq<T>, needle: seq<T>, from: nat)
    requires IndexOf(hay, needle, from) != -1
    ensures IndexOf(hay + more, needle, from) == IndexOf(hay, needle, from)
  {
    var p := IndexOf(hay, needle, from);
    assert (hay + more)[p..p + |needle|] == hay[p..p + |needle|];
    assert At(hay + more, needle, p);
    forall q: nat | from <= q < p
      ensures !At(hay + more, needle, q)
    {
      assert !At(hay, needle, q);
      assert (hay + more)[q..q + |needle|] == hay[q..q + |needle|];
    }
    IndexOfIs(hay + more, needle, from, p);
  }
}
