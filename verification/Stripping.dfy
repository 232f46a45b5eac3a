/**
 Bytes a relay put in front of a body: transport keepalives before an event stream, blank lines before a
 multipart tail. The verifier drops them one at a time, and only if what is left hashes to the signed digest.
 */
module Stripping {
  import opened Bytes
  import opened Json
  import Utf8

  // ----- The signed digest -----

  predicate HexDigit(c: char) {
    '0' <= c <= '9' || 'a' <= c <= 'f'
  }

  function LowerAscii(c: char): char {
    if 'A' <= c <= 'Z' then (c as int + 0x20) as char else c
  }

  function Lower(s: string): (t: string)
    ensures |t| == |s|
  {
    seq(|s|, i requires 0 <= i < |s| => LowerAscii(s[i]))
  }

  /** The digest a proof signs, if it has the shape of one. */
  function Expected(proof: Option<Value>): Option<string> {
    if proof.None? || AsStr(proof.value.Get("response_body_sha256")).None? then None
    else
      var t := Lower(AsStr(proof.value.Get("response_body_sha256")).value);
      if |t| == 64 && forall i :: 0 <= i < |t| ==> HexDigit(t[i]) then Some(t) else None
  }

  /** The digest is the signed text in lower case: 64 hexadecimal digits, of which the proof may capitalise any. */
  lemma ExpectedIff(v: Value, d: string)
    ensures Expected(Some(v)) == Some(d) <==>
      exists t: string :: v.Get("response_body_sha256") == Some(Str(t)) && |t| == |d| == 64 && SameDigits(t, d)
    ensures Expected(None) == None
  {
    hide LowerAscii, HexDigit;
    if v.Get("response_body_sha256").Some? && v.Get("response_body_sha256").value.Str? {
      var t := v.Get("response_body_sha256").value.s;
      LowerDigits(t, d);
    }
  }

  /** Digit by digit the same, or the capital of it. */
  predicate SameDigits(t: string, d: string)
    requires |t| == |d|
  {
    forall i :: 0 <= i < |d| ==>
      && ('0' <= d[i] <= '9' || 'a' <= d[i] <= 'f')
      && (t[i] == d[i] || ('A' <= t[i] <= 'F' && t[i] as int + 0x20 == d[i] as int))
  }

  lemma LowerDigits(t: string, d: string)
    ensures Lower(t) == d && (forall i :: 0 <= i < |d| ==> HexDigit(d[i])) <==> |t| == |d| && SameDigits(t, d)
  {
    if |t| == |d| && SameDigits(t, d) {
      assert forall i :: 0 <= i < |d| ==> LowerAscii(t[i]) == d[i];
      assert Lower(t) == d;
    }
    if Lower(t) == d && forall i :: 0 <= i < |d| ==> HexDigit(d[i]) {
      assert forall i :: 0 <= i < |d| ==> LowerAscii(t[i]) == d[i];
    }
  }

  // ----- What is tried, and in which order -----

  /** One removable run at a position: where it ends, or -1. */
  datatype Kind = Keepalive | BlankLine

  /** `: wokey-transport-keepalive-v1` and an empty line. */
  const MARKER: seq<byte> := [
    0x3a, 0x20, 0x77, 0x6f, 0x6b, 0x65, 0x79, 0x2d, 0x74, 0x72, 0x61, 0x6e, 0x73, 0x70, 0x6f, 0x72, 0x74, 0x2d,
    0x6b, 0x65, 0x65, 0x70, 0x61, 0x6c, 0x69, 0x76, 0x65, 0x2d, 0x76, 0x31, 0x0a, 0x0a]

  lemma MarkerIsText()
    ensures MARKER == Utf8.Encode(": wokey-transport-keepalive-v1\n\n")
  {
    hide Utf8.Encode;
    var s := ": wokey-transport-keepalive-v1\n\n";
    assert |s| == |MARKER| == 32 && forall i :: 0 <= i < 32 ==> s[i] as int == MARKER[i];
    Utf8.AsciiOctets(s);
  }

  predicate Blank(b: byte) {
    b == 0x20 || b == 0x09
  }

  function SkipBlanks(body: seq<byte>, p: nat): (q: nat)
    requires p <= |body|
    ensures p <= q <= |body| && (q == |body| || !Blank(body[q]))
    ensures forall i :: p <= i < q ==> Blank(body[i])
    decreases |body| - p
  {
    if p < |body| && Blank(body[p]) then SkipBlanks(body, p + 1) else p
  }

  /** `consumeLineEnding`: the position behind CRLF or LF, or -1. */
  function LineEnding(bytes: seq<byte>, p: nat): (q: int)
    ensures q == -1 || p < q <= |bytes|
  {
    if p + 1 < |bytes| && bytes[p] == CR && bytes[p + 1] == LF then p + 2
    else if p < |bytes| && bytes[p] == LF then p + 1
    else -1
  }

  function Next(kind: Kind, body: seq<byte>, offset: nat): (q: int)
    requires offset <= |body|
    ensures q == -1 || offset < q <= |body|
  {
    match kind
    case Keepalive => if At(body, MARKER, offset) then offset + |MARKER| else -1
    case BlankLine => LineEnding(body, SkipBlanks(body, offset))
  }

  /** The position behind the first k runs, if there are that many. */
  function Chain(kind: Kind, body: seq<byte>, k: nat): (p: Option<nat>)
    ensures p.Some? ==> p.value <= |body|
  {
    if k == 0 then Some(0)
    else
      var before := Chain(kind, body, k - 1);
      if before.None? then None
      else
        var q := Next(kind, body, before.value);
        if q == -1 then None else Some(q)
  }

  lemma {:induction false} ChainGrows(kind: Kind, body: seq<byte>, j: nat, k: nat)
    requires j < k && Chain(kind, body, k).Some?
    ensures Chain(kind, body, j).Some? && Chain(kind, body, j).value < Chain(kind, body, k).value
    decreases k
  {
    if j < k - 1 {
      ChainGrows(kind, body, j, k - 1);
    }
  }

  // ----- The two loops -----

  /** How much was removed from the front, and in how many runs. */
  datatype Removed = Removed(offset: nat, count: nat)

  const NOTHING := Removed(0, 0)

  /** No run of fewer than k leaves a remainder with the digest. */
  ghost predicate NoneBefore(kind: Kind, body: seq<byte>, digest: string, sha: seq<byte> -> string, k: nat) {
    forall j: nat :: j < k && Chain(kind, body, j).Some? ==> sha(body[Chain(kind, body, j).value..]) != digest
  }

  /**
   The outcome in full: the fewest runs whose removal leaves a remainder with the signed digest are removed;
   if there are none, or nothing was signed, the body stays as it is.
   */
  ghost predicate IsOutcome(kind: Kind, body: seq<byte>, expected: Option<string>, sha: seq<byte> -> string,
                            r: Removed) {
    if expected.None? then r == NOTHING
    else if exists k: nat :: Chain(kind, body, k).Some? && sha(body[Chain(kind, body, k).value..]) == expected.value then
      Chain(kind, body, r.count) == Some(r.offset) && sha(body[r.offset..]) == expected.value
      && NoneBefore(kind, body, expected.value, sha, r.count)
    else r == NOTHING
  }

  /** The outcome is unique. */
  lemma OutcomeUnique(kind: Kind, body: seq<byte>, expected: Option<string>, sha: seq<byte> -> string, r: Removed,
                      t: Removed)
    requires IsOutcome(kind, body, expected, sha, r) && IsOutcome(kind, body, expected, sha, t)
    ensures r == t
  {
    hide Next;
  }

  lemma {:induction false} ChainEnds(kind: Kind, body: seq<byte>, k: nat, j: nat)
    requires Chain(kind, body, k).None? && k <= j
    ensures Chain(kind, body, j).None?
    decreases j
  {
    if k < j {
      ChainEnds(kind, body, k, j - 1);
    }
  }

  /** Searching from the k-th candidate on, given that the earlier ones do not match. */
  function Search(kind: Kind, body: seq<byte>, digest: string, sha: seq<byte> -> string, offset: nat,
                  count: nat): Removed
    requires offset <= |body|
    decreases |body| - offset
  {
    var q := Next(kind, body, offset);
    if q == -1 then NOTHING
    else if sha(body[q..]) == digest then Removed(q, count + 1)
    else Search(kind, body, digest, sha, q, count + 1)
  }

  function Strip(kind: Kind, body: seq<byte>, expected: Option<string>, sha: seq<byte> -> string): Removed {
    if expected.None? || sha(body) == expected.value then NOTHING
    else Search(kind, body, expected.value, sha, 0, 0)
  }

  /** `removeLeadingTransportKeepalivesIfSignedHashMatches`. */
  method RemoveKeepalives(body: seq<byte>, proof: Option<Value>, sha: seq<byte> -> string) returns (kept: seq<byte>,
                          bytes: nat, count: nat)
    ensures Removed(bytes, count) == Strip(Keepalive, body, Expected(proof), sha)
    ensures bytes <= |body| && kept == body[bytes..]
  {
    kept, bytes, count := body, 0, 0;
    var expected := Expected(proof);
    if expected.None? {
      return;
    }
    if sha(body) == expected.value {
      return;
    }
    var offset := 0;
    while At(body, MARKER, offset)
      invariant offset <= |body| && kept == body && bytes == 0
      invariant Strip(Keepalive, body, expected, sha) == Search(Keepalive, body, expected.value, sha, offset, count)
      decreases |body| - offset
    {
      offset := offset + |MARKER|;
      count := count + 1;
      var candidate := body[offset..];
      if sha(candidate) == expected.value {
        return candidate, offset, count;
      }
    }
    count := 0;
  }

  /** `consumeLeadingBlankLine`. */
  method ConsumeBlankLine(body: seq<byte>, offset: nat) returns (next: int)
    requires offset <= |body|
    ensures next == Next(BlankLine, body, offset)
  {
    var p := offset;
    while p < |body| && Blank(body[p])
      invariant offset <= p <= |body| && SkipBlanks(body, p) == SkipBlanks(body, offset)
    {
      p := p + 1;
    }
    next := LineEnding(body, p);
  }

  /** `removeLeadingBlankLinesIfSignedHashMatches`. */
  method RemoveBlankLines(body: seq<byte>, proof: Option<Value>, sha: seq<byte> -> string) returns (kept: seq<byte>,
                          bytes: nat)
    ensures bytes == Strip(BlankLine, body, Expected(proof), sha).offset
    ensures bytes <= |body| && kept == body[bytes..]
  {
    kept, bytes := body, 0;
    var expected := Expected(proof);
    if expected.None? {
      return;
    }
    if sha(body) == expected.value {
      return;
    }
    var offset := 0;
    ghost var count := 0;
    while true
      invariant offset <= |body|
      invariant Strip(BlankLine, body, expected, sha) == Search(BlankLine, body, expected.value, sha, offset, count)
      decreases |body| - offset
    {
      var next := ConsumeBlankLine(body, offset);
      if next <= offset {
        return;
      }
      offset := next;
      count := count + 1;
      var candidate := body[offset..];
      if sha(candidate) == expected.value {
        return candidate, offset;
      }
    }
  }

  // ----- What the loops achieve -----

  lemma {:induction false} SearchIs(kind: Kind, body: seq<byte>, digest: string, sha: seq<byte> -> string, k: nat)
    requires Chain(kind, body, k).Some? && NoneBefore(kind, body, digest, sha, k + 1)
    ensures IsOutcome(kind, body, Some(digest), sha, Search(kind, body, digest, sha, Chain(kind, body, k).value, k))
    decreases |body| - Chain(kind, body, k).value
  {
    hide Next, At;
    var offset := Chain(kind, body, k).value;
    var q := Next(kind, body, offset);
    if q == -1 {
      forall j: nat | Chain(kind, body, j).Some?
        ensures sha(body[Chain(kind, body, j).value..]) != digest
      {
        if j > k {
          ChainEnds(kind, body, k + 1, j);
        }
      }
    } else {
      assert Chain(kind, body, k + 1) == Some(q);
      if sha(body[q..]) != digest {
        SearchIs(kind, body, digest, sha, k + 1);
      }
    }
  }

  /** Both loops compute the outcome. */
  lemma StripIs(kind: Kind, body: seq<byte>, expected: Option<string>, sha: seq<byte> -> string)
    ensures IsOutcome(kind, body, expected, sha, Strip(kind, body, expected, sha))
  {
    hide Next;
    assert body[0..] == body;
    if expected.Some? {
      assert Chain(kind, body, 0) == Some(0);
      if sha(body) != expected.value {
        assert NoneBefore(kind, body, expected.value, sha, 1);
        SearchIs(kind, body, expected.value, sha, 0);
      }
    }
  }

  function Repeat(s: seq<byte>, k: nat): (r: seq<byte>)
    ensures |r| == k * |s|
  {
    if k == 0 then [] else Repeat(s, k - 1) + s
  }

  /** What stands in front of a keepalive candidate is that many markers and nothing else. */
  lemma {:induction false} KeepalivesAre(body: seq<byte>, k: nat)
    requires Chain(Keepalive, body, k).Some?
    ensures body == Repeat(MARKER, k) + body[Chain(Keepalive, body, k).value..]
    ensures Chain(Keepalive, body, k).value == k * |MARKER|
  {
    hide MARKER;
    if k == 0 {
      assert body[0..] == body;
    } else {
      KeepalivesAre(body, k - 1);
      var p := Chain(Keepalive, body, k - 1).value;
      assert body[p..] == MARKER + body[p + |MARKER|..];
    }
  }

  predicate BlankOctet(b: byte) {
    Blank(b) || b == CR || b == LF
  }

  /** What stands in front of a blank-line candidate is blank. */
  lemma {:induction false} BlanksAre(body: seq<byte>, k: nat)
    requires Chain(BlankLine, body, k).Some?
    ensures forall i :: 0 <= i < Chain(BlankLine, body, k).value ==> BlankOctet(body[i])
  {
    if k > 0 {
      BlanksAre(body, k - 1);
    }
  }

  /**
   Removing keepalives is safe on every input: input = markers + what is kept, and whenever anything was
   removed the kept bytes, and no longer remainder, carry the signed digest.
   */
  lemma KeepalivesAreSafe(body: seq<byte>, expected: Option<string>, sha: seq<byte> -> string)
    ensures var r := Strip(Keepalive, body, expected, sha);
      && r.offset <= |body| && body == Repeat(MARKER, r.count) + body[r.offset..]
      && (r.count > 0 ==> expected == Some(sha(body[r.offset..])))
      && (r.count > 0 ==> forall j: nat :: j < r.count ==> expected != Some(sha(body[j * |MARKER|..])))
  {
    hide MARKER, Next;
    StripIs(Keepalive, body, expected, sha);
    var r := Strip(Keepalive, body, expected, sha);
    assert Chain(Keepalive, body, 0) == Some(0);
    assert Chain(Keepalive, body, r.count) == Some(r.offset);
    KeepalivesAre(body, r.count);
    forall j: nat | j < r.count
      ensures j * |MARKER| <= r.count * |MARKER|
      ensures expected != Some(sha(body[j * |MARKER|..]))
    {
      ChainGrows(Keepalive, body, j, r.count);
      KeepalivesAre(body, j);
    }
  }

  /** Removing blank lines is safe on every input. */
  lemma BlankLinesAreSafe(body: seq<byte>, expected: Option<string>, sha: seq<byte> -> string)
    ensures var r := Strip(BlankLine, body, expected, sha);
      && r.offset <= |body| && (forall i :: 0 <= i < r.offset ==> BlankOctet(body[i]))
      && (r.offset > 0 ==> expected == Some(sha(body[r.offset..])))
  {
    hide Next, BlankOctet;
    StripIs(BlankLine, body, expected, sha);
    var r := Strip(BlankLine, body, expected, sha);
    assert Chain(BlankLine, body, 0) == Some(0);
    assert Chain(BlankLine, body, r.count) == Some(r.offset);
    BlanksAre(body, r.count);
  }

  /** The hash tells the body from the longer candidates tried before it. */
  ghost predicate NoCollision(sha: seq<byte> -> string, body: seq<byte>, k: nat) {
    forall j: nat :: 0 < j <= k ==> sha(Repeat(MARKER, j) + body) != sha(body)
  }

  lemma {:induction false} RepeatSplit(s: seq<byte>, j: nat, k: nat)
    requires j <= k
    ensures Repeat(s, k) == Repeat(s, j) + Repeat(s, k - j)
    decreases k
  {
    if j < k {
      RepeatSplit(s, j, k - 1);
    }
  }

  /** Behind j of k markers stand the other k - j and the body. */
  lemma BehindMarkers(body: seq<byte>, j: nat, k: nat)
    requires j <= k
    ensures |Repeat(MARKER, k) + body| == k * |MARKER| + |body| && j * |MARKER| <= k * |MARKER|
    ensures (Repeat(MARKER, k) + body)[j * |MARKER|..] == Repeat(MARKER, k - j) + body
  {
    hide MARKER, Repeat;
    RepeatSplit(MARKER, j, k);
    DropFront(Repeat(MARKER, j), Repeat(MARKER, k - j), body);
  }

  lemma DropFront<T>(a: seq<T>, b: seq<T>, c: seq<T>)
    ensures (a + b + c)[|a|..] == b + c
  {
  }

  lemma RepeatFirst(s: seq<byte>, k: nat)
    requires k > 0
    ensures Repeat(s, k) == s + Repeat(s, k - 1)
  {
    RepeatSplit(s, 1, k);
    assert Repeat(s, 0) + s == s;
  }

  lemma AtOfDrop<T>(hay: seq<T>, needle: seq<T>, p: nat, rest: seq<T>)
    requires p <= |hay| && hay[p..] == needle + rest
    ensures At(hay, needle, p)
  {
    assert hay[p..p + |needle|] == hay[p..][..|needle|];
  }

  lemma {:induction false} ChainOfMarkers(body: seq<byte>, j: nat, k: nat)
    requires j <= k
    ensures Chain(Keepalive, Repeat(MARKER, k) + body, j) == Some(j * |MARKER|)
    decreases j
  {
    hide MARKER, Repeat, At;
    if j > 0 {
      var whole := Repeat(MARKER, k) + body;
      ChainOfMarkers(body, j - 1, k);
      BehindMarkers(body, j - 1, k);
      RepeatFirst(MARKER, k - j + 1);
      assert MARKER + Repeat(MARKER, k - j) + body == MARKER + (Repeat(MARKER, k - j) + body);
      AtOfDrop(whole, MARKER, (j - 1) * |MARKER|, Repeat(MARKER, k - j) + body);
    }
  }

  lemma RepeatNothing(body: seq<byte>)
    ensures Repeat(MARKER, 0) + body == body
  {
  }

  /**
   Whatever number of markers was put in front, exactly those are removed and the body comes back - if and
   only if the hash tells the body from the longer candidates.
   */
  lemma KeepalivesComeOff(body: seq<byte>, k: nat, sha: seq<byte> -> string)
    ensures Strip(Keepalive, Repeat(MARKER, k) + body, Some(sha(body)), sha) == Removed(k * |MARKER|, k)
        <==> NoCollision(sha, body, k)
    ensures k * |MARKER| <= |Repeat(MARKER, k) + body| && (Repeat(MARKER, k) + body)[k * |MARKER|..] == body
  {
    hide MARKER, Next, Chain, Repeat, Search, Strip;
    var whole, digest := Repeat(MARKER, k) + body, sha(body);
    var r := Strip(Keepalive, whole, Some(digest), sha);
    ChainOfMarkers(body, k, k);
    BehindMarkers(body, k, k);
    RepeatNothing(body);
    StripIs(Keepalive, whole, Some(digest), sha);
    if NoCollision(sha, body, k) {
      forall j: nat | j < k && Chain(Keepalive, whole, j).Some?
        ensures sha(whole[Chain(Keepalive, whole, j).value..]) != digest
      {
        ChainOfMarkers(body, j, k);
        BehindMarkers(body, j, k);
      }
      OutcomeUnique(Keepalive, whole, Some(digest), sha, r, Removed(k * |MARKER|, k));
    } else {
      var j: nat :| 0 < j <= k && sha(Repeat(MARKER, j) + body) == digest;
      ChainOfMarkers(body, k - j, k);
      BehindMarkers(body, k - j, k);
      assert r.count != k;
    }
  }

  // ----- Blank lines that were put in front -----

  /** Blanks and a line ending. */
  predicate IsBlankLine(l: seq<byte>) {
    || (l != [] && l[|l| - 1] == LF && forall i :: 0 <= i < |l| - 1 ==> Blank(l[i]))
    || (|l| >= 2 && l[|l| - 1] == LF && l[|l| - 2] == CR && forall i :: 0 <= i < |l| - 2 ==> Blank(l[i]))
  }

  function Lines(ls: seq<seq<byte>>): seq<byte> {
    if ls == [] then [] else Lines(ls[..|ls| - 1]) + ls[|ls| - 1]
  }

  /** A blank line at a position is one run. */
  lemma BlankLineNext(front: seq<byte>, l: seq<byte>, rest: seq<byte>)
    requires IsBlankLine(l)
    ensures Next(BlankLine, front + l + rest, |front|) == |front| + |l|
  {
    var body := front + l + rest;
    var p := |front|;
    assert forall i :: 0 <= i < |l| ==> body[p + i] == l[i];
    var n := if |l| >= 2 && l[|l| - 2] == CR then |l| - 2 else |l| - 1;
    assert !Blank(l[n]) && forall i :: 0 <= i < n ==> Blank(l[i]);
    SkipIs(body, p, n);
  }

  lemma {:induction false} SkipIs(body: seq<byte>, p: nat, n: nat)
    requires p + n < |body| && !Blank(body[p + n]) && forall i :: p <= i < p + n ==> Blank(body[i])
    ensures SkipBlanks(body, p) == p + n
    decreases n
  {
    if n > 0 {
      SkipIs(body, p + 1, n - 1);
    }
  }

  lemma {:induction false} ChainOfLines(ls: seq<seq<byte>>, j: nat, rest: seq<byte>)
    requires (forall i :: 0 <= i < |ls| ==> IsBlankLine(ls[i])) && j <= |ls|
    ensures Chain(BlankLine, Lines(ls) + rest, j) == Some(|Lines(ls[..j])|)
    decreases |ls|, j
  {
    hide IsBlankLine, Next;
    if j == 0 {
    } else if j < |ls| {
      var last := ls[|ls| - 1];
      var front := ls[..|ls| - 1];
      assert Lines(ls) + rest == Lines(front) + (last + rest);
      assert front[..j] == ls[..j];
      ChainOfLines(front, j, last + rest);
    } else {
      ChainOfLines(ls, j - 1, rest);
      assert ls[..j] == ls && ls[..j - 1] == ls[..|ls| - 1];
      BlankLineNext(Lines(ls[..|ls| - 1]), ls[|ls| - 1], rest);
    }
  }

  lemma {:induction false} LinesLength(ls: seq<seq<byte>>, j: nat)
    requires j <= |ls|
    ensures |Lines(ls[..j])| <= |Lines(ls)|
    decreases |ls|
  {
    if j < |ls| {
      assert ls[..|ls| - 1][..j] == ls[..j];
      LinesLength(ls[..|ls| - 1], j);
    } else {
      assert ls[..j] == ls;
    }
  }

  /**
   Whatever blank lines were put in front, exactly those are removed - if and only if the hash tells the body from
   the longer candidates.
   */
  lemma BlankLinesComeOff(ls: seq<seq<byte>>, body: seq<byte>, sha: seq<byte> -> string)
    requires forall i :: 0 <= i < |ls| ==> IsBlankLine(ls[i])
    ensures Strip(BlankLine, Lines(ls) + body, Some(sha(body)), sha) == Removed(|Lines(ls)|, |ls|) <==>
      forall j: nat :: j < |ls| ==> |Lines(ls[..j])| <= |Lines(ls)| && sha((Lines(ls) + body)[|Lines(ls[..j])|..]) != sha(body)
  {
    hide IsBlankLine, Next, Strip;
    var whole := Lines(ls) + body;
    StripIs(BlankLine, whole, Some(sha(body)), sha);
    forall j: nat | j <= |ls|
      ensures Chain(BlankLine, whole, j) == Some(|Lines(ls[..j])|) && |Lines(ls[..j])| <= |Lines(ls)|
    {
      ChainOfLines(ls, j, body);
      LinesLength(ls, j);
    }
    assert ls[..|ls|] == ls;
    assert whole[|Lines(ls)|..] == body;
    var r := Removed(|Lines(ls)|, |ls|);
    if forall j: nat :: j < |ls| ==> sha(whole[|Lines(ls[..j])|..]) != sha(body) {
      assert IsOutcome(BlankLine, whole, Some(sha(body)), sha, r);
      OutcomeUnique(BlankLine, whole, Some(sha(body)), sha, r, Strip(BlankLine, whole, Some(sha(body)), sha));
    }
  }
}
