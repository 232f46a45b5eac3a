/**
 The signed statement: the enclave's printer, the verifier's printer and its wire checks, and the proof
 that a rebuilt statement determines what was signed although the verifier never looks for line feeds.
 */
module Statement {
  import opened Bytes
  import opened Json
  import CanonicalJson
  import Decimals
  import Utf8

  /** Case mapping and hashing: fixed functions that are not modelled further. */
  datatype Primitives = Primitives(lower: string -> string, upper: string -> string, sha256Hex: seq<byte> -> string)

  predicate NoLf(s: string) {
    '\n' !in s
  }

  /** `no_crlf`. */
  predicate NoCrlf(s: string) {
    '\r' !in s && '\n' !in s
  }

  predicate LowerHexChar(c: char) {
    '0' <= c <= '9' || 'a' <= c <= 'f'
  }

  /** A lower-case hexadecimal SHA-256 digest. */
  predicate Hex64(s: string) {
    |s| == 64 && forall i :: 0 <= i < 64 ==> LowerHexChar(s[i])
  }

  /** Case mapping never produces a line feed and is idempotent, and hashes print as 64 hexadecimal digits. */
  ghost predicate Sound(p: Primitives) {
    && (forall s :: NoLf(s) ==> NoLf(p.lower(s)) && NoLf(p.upper(s)))
    && (forall s :: p.lower(p.lower(s)) == p.lower(s)) && (forall s :: p.upper(p.upper(s)) == p.upper(s))
    && (forall b :: Hex64(p.sha256Hex(b)))
  }

  /** There are such primitives. */
  lemma SoundExists() returns (p: Primitives)
    ensures Sound(p)
  {
    p := Primitives(s => s, s => s, _ => seq(64, _ => '0'));
  }

  /** A digest is 64 of these characters. */
  lemma Hex64Iff(s: string)
    ensures Hex64(s) <==> |s| == 64 && forall i :: 0 <= i < 64 ==> s[i] in "0123456789abcdef"
  {
    forall c: char
      ensures LowerHexChar(c) <==> c in "0123456789abcdef"
    {
    }
  }

  /** `path_no_query`, `pathWithoutQuery`. */
  function PathNoQuery(p: string): (r: string)
    ensures r <= p && '?' !in r && (|r| < |p| ==> p[|r|] == '?')
  {
    if p == "" || p[0] == '?' then "" else [p[0]] + PathNoQuery(p[1..])
  }

  /** A path without a query is its own. */
  lemma {:induction false} PathTwice(p: string)
    ensures PathNoQuery(PathNoQuery(p)) == PathNoQuery(p)
  {
    if p != "" && p[0] != '?' {
      PathTwice(p[1..]);
      assert PathNoQuery(p)[1..] == PathNoQuery(p[1..]);
    }
  }

  /** The fields a statement is built from; the claims enter through the hash of their canonical text. */
  datatype Fields = Fields(
    nonce: string, host: string, path: string, verb: string, status: nat, contentType: string,
    requestHex: string, responseHex: string, claimsHex: Option<string>)

  // ----- The two printers -----

  const KEYS: seq<string> := [
    "", "nonce=", "upstream-host=", "upstream-path=", "http-method=", "http-status=", "resp-content-type=",
    "request-body-sha256=", "response-body-sha256=", "field-claims-sha256="]

  /** What stands after the key on each line. */
  function Values(p: Primitives, f: Fields): (vs: seq<string>)
    ensures |vs| == if f.claimsHex.Some? then 10 else 9
  {
    ["tee-exchange-v2", f.nonce, p.lower(f.host), PathNoQuery(f.path), p.upper(f.verb), Decimals.Digits(f.status),
     f.contentType, f.requestHex, f.responseHex] + (if f.claimsHex.Some? then [f.claimsHex.value] else [])
  }

  function LinesOf(p: Primitives, f: Fields): (ls: seq<string>)
    ensures |ls| == |Values(p, f)|
    ensures forall i :: 0 <= i < |ls| ==> ls[i] == KEYS[i] + Values(p, f)[i]
  {
    seq(|Values(p, f)|, i requires 0 <= i < |Values(p, f)| => KEYS[i] + Values(p, f)[i])
  }

  function Unlines(ls: seq<string>): string {
    if ls == [] then "" else ls[0] + "\n" + Unlines(ls[1..])
  }

  /** `buildV2Statement`: the lines, each ended by a line feed. */
  function StatementText(p: Primitives, f: Fields): string {
    Unlines(LinesOf(p, f))
  }

  lemma {:induction false} UnlinesConcat(a: seq<string>, b: seq<string>)
    ensures Unlines(a + b) == Unlines(a) + Unlines(b)
    decreases |a|
  {
    if a == [] {
      assert a + b == b;
    } else {
      assert (a + b)[1..] == a[1..] + b;
      UnlinesConcat(a[1..], b);
    }
  }

  lemma PushLine(p: Primitives, f: Fields, i: nat)
    requires i < |Values(p, f)|
    ensures Unlines(LinesOf(p, f)[..i + 1]) == Unlines(LinesOf(p, f)[..i]) + KEYS[i] + Values(p, f)[i] + "\n"
  {
    hide Values;
    var ls := LinesOf(p, f);
    SplitLast(ls[..i + 1]);
    assert ls[..i + 1][..i] == ls[..i];
    assert Unlines(ls[..i]) + (KEYS[i] + Values(p, f)[i]) == Unlines(ls[..i]) + KEYS[i] + Values(p, f)[i];
  }

  /** `build_v2_statement`: the enclave appends piece by piece and prints the same bytes as the verifier. */
  method BuildV2Statement(p: Primitives, f: Fields) returns (bytes: seq<byte>)
    ensures bytes == Utf8.Encode(StatementText(p, f))
  {
    hide Unlines, PathNoQuery, Values, LinesOf;
    ghost var ls := LinesOf(p, f);
    ValuesAre(p, f);
    UnlinesOfNone();
    assert ls[..0] == [];
    var out := "";
    PushLine(p, f, 0);
    out := out + "tee-exchange-v2" + "\n";
    assert "" + "" + "tee-exchange-v2" == "tee-exchange-v2";
    assert out == Unlines(ls[..1]);
    PushLine(p, f, 1);
    out := out + "nonce=" + f.nonce + "\n";
    assert out == Unlines(ls[..2]);
    PushLine(p, f, 2);
    out := out + "upstream-host=" + p.lower(f.host) + "\n";
    assert out == Unlines(ls[..3]);
    PushLine(p, f, 3);
    out := out + "upstream-path=" + PathNoQuery(f.path) + "\n";
    assert out == Unlines(ls[..4]);
    PushLine(p, f, 4);
    out := out + "http-method=" + p.upper(f.verb) + "\n";
    assert out == Unlines(ls[..5]);
    PushLine(p, f, 5);
    out := out + "http-status=" + Decimals.Digits(f.status) + "\n";
    assert out == Unlines(ls[..6]);
    PushLine(p, f, 6);
    out := out + "resp-content-type=" + f.contentType + "\n";
    assert out == Unlines(ls[..7]);
    PushLine(p, f, 7);
    out := out + "request-body-sha256=" + f.requestHex + "\n";
    assert out == Unlines(ls[..8]);
    PushLine(p, f, 8);
    out := out + "response-body-sha256=" + f.responseHex + "\n";
    assert out == Unlines(ls[..9]);
    if f.claimsHex.Some? {
      PushLine(p, f, 9);
      out := out + "field-claims-sha256=" + f.claimsHex.value + "\n";
    }
    assert ls[..|ls|] == ls;
    bytes := Utf8.Encode(out);
  }

  lemma UnlinesOfNone()
    ensures Unlines([]) == ""
  {
  }

  lemma ValuesAre(p: Primitives, f: Fields)
    ensures var vs := Values(p, f);
      && vs[0] == "tee-exchange-v2" && vs[1] == f.nonce && vs[2] == p.lower(f.host) && vs[3] == PathNoQuery(f.path)
      && vs[4] == p.upper(f.verb) && vs[5] == Decimals.Digits(f.status) && vs[6] == f.contentType
      && vs[7] == f.requestHex && vs[8] == f.responseHex && (f.claimsHex.Some? ==> vs[9] == f.claimsHex.value)
  {
  }

  // ----- Line feeds -----

  function CountLf(s: string): nat {
    if s == "" then 0 else (if s[0] == '\n' then 1 else 0) + CountLf(s[1..])
  }

  lemma {:induction false} CountConcat(a: string, b: string)
    ensures CountLf(a + b) == CountLf(a) + CountLf(b)
    decreases |a|
  {
    if a == "" {
      assert a + b == b;
    } else {
      assert (a + b)[1..] == a[1..] + b;
      CountConcat(a[1..], b);
    }
  }

  lemma {:induction false} CountZero(s: string)
    ensures CountLf(s) == 0 <==> NoLf(s)
  {
    if s != "" {
      CountZero(s[1..]);
      assert s == [s[0]] + s[1..];
    }
  }

  function Extra(ls: seq<string>): nat {
    if ls == [] then 0 else CountLf(ls[0]) + Extra(ls[1..])
  }

  lemma {:induction false} CountUnlines(ls: seq<string>)
    ensures CountLf(Unlines(ls)) == |ls| + Extra(ls)
    decreases |ls|
  {
    if ls != [] {
      CountConcat(ls[0] + "\n", Unlines(ls[1..]));
      CountConcat(ls[0], "\n");
      assert CountLf("\n") == 1;
      CountUnlines(ls[1..]);
    }
  }

  predicate Clean(ls: seq<string>) {
    forall i :: 0 <= i < |ls| ==> NoLf(ls[i])
  }

  lemma {:induction false} ExtraZero(ls: seq<string>)
    ensures Extra(ls) == 0 <==> Clean(ls)
    decreases |ls|
  {
    if ls != [] {
      CountZero(ls[0]);
      ExtraZero(ls[1..]);
      assert Clean(ls) <==> NoLf(ls[0]) && Clean(ls[1..]) by {
        assert ls == [ls[0]] + ls[1..];
      }
    }
  }

  /** A clean line in front of a line feed is read in only one way. */
  lemma LineUnique(a: string, b: string, x: string, y: string)
    requires NoLf(a) && NoLf(b) && a + "\n" + x == b + "\n" + y
    ensures a == b && x == y
  {
    var w := a + "\n" + x;
    assert w[|a|] == '\n' && w[|b|] == '\n';
    assert forall i :: 0 <= i < |a| ==> w[i] == a[i];
    assert forall i :: 0 <= i < |b| ==> w[i] == b[i];
    assert |a| == |b|;
    assert w[..|a|] == a && w[..|b|] == b;
    CanonicalJson.Cancel(a + "\n", x, y);
  }

  lemma {:induction false} CleanLinesUnique(ls: seq<string>, ms: seq<string>)
    requires Clean(ls) && Clean(ms) && Unlines(ls) == Unlines(ms)
    ensures ls == ms
    decreases |ls|
  {
    if ls != [] && ms != [] {
      LineUnique(ls[0], ms[0], Unlines(ls[1..]), Unlines(ms[1..]));
      CleanLinesUnique(ls[1..], ms[1..]);
      assert ls == [ls[0]] + ls[1..] && ms == [ms[0]] + ms[1..];
    }
  }

  /** The longer front ends inside the other tail. */
  lemma LfInside(u: string, a: string, v: string, b: string)
    requires u != "" && u[|u| - 1] == '\n' && |v| < |u| && u + a == v + b
    ensures '\n' in b
  {
    assert b[|u| - 1 - |v|] == (u + a)[|u| - 1];
  }

  lemma TailUnique(u: string, a: string, v: string, b: string)
    requires u != "" && u[|u| - 1] == '\n' && v != "" && v[|v| - 1] == '\n'
    requires NoLf(a) && NoLf(b) && u + a == v + b
    ensures a == b
  {
    if |v| < |u| {
      LfInside(u, a, v, b);
    } else if |u| < |v| {
      LfInside(v, b, u, a);
    } else {
      assert (u + a)[|u|..] == a && (v + b)[|v|..] == b;
    }
  }

  lemma DropLast<T>(s: seq<T>, t: seq<T>, x: T)
    requires s + [x] == t + [x]
    ensures s == t
  {
    assert (s + [x])[..|s|] == s && (t + [x])[..|t|] == t;
  }

  /** The last line, when clean, is what follows the last but one line feed. */
  lemma LastLineUnique(ls: seq<string>, ms: seq<string>)
    requires |ls| >= 2 && |ms| >= 2 && Unlines(ls) == Unlines(ms)
    requires NoLf(ls[|ls| - 1]) && NoLf(ms[|ms| - 1])
    ensures ls[|ls| - 1] == ms[|ms| - 1]
  {
    hide Unlines;
    var a, b := ls[|ls| - 1], ms[|ms| - 1];
    var u, v := Unlines(ls[..|ls| - 1]), Unlines(ms[..|ms| - 1]);
    EndsWithLf(ls[..|ls| - 1]);
    EndsWithLf(ms[..|ms| - 1]);
    SplitLast(ls);
    SplitLast(ms);
    DropLast(u + a, v + b, '\n');
    TailUnique(u, a, v, b);
  }

  lemma SplitLast(ls: seq<string>)
    requires ls != []
    ensures Unlines(ls) == Unlines(ls[..|ls| - 1]) + ls[|ls| - 1] + "\n"
  {
    var n := |ls| - 1;
    assert ls == ls[..n] + [ls[n]];
    UnlinesConcat(ls[..n], [ls[n]]);
    assert Unlines([ls[n]]) == ls[n] + "\n" + Unlines([]);
    assert ls[n] + "\n" + "" == ls[n] + "\n";
    assert Unlines(ls[..n]) + (ls[n] + "\n") == Unlines(ls[..n]) + ls[n] + "\n";
  }

  lemma EndsWithLf(ls: seq<string>)
    requires ls != []
    ensures Unlines(ls) != "" && Unlines(ls)[|Unlines(ls)| - 1] == '\n'
  {
    SplitLast(ls);
  }

  // ----- What a statement determines -----

  /** The facts two field records share when they print alike line by line. */
  ghost predicate SameView(p: Primitives, s: Fields, v: Fields) {
    && s.nonce == v.nonce
    && p.lower(s.host) == p.lower(v.host)
    && PathNoQuery(s.path) == PathNoQuery(v.path)
    && p.upper(s.verb) == p.upper(v.verb)
    && s.status == v.status
    && s.contentType == v.contentType
    && s.requestHex == v.requestHex
    && s.responseHex == v.responseHex
    && s.claimsHex == v.claimsHex
  }

  lemma SameLinesSameView(p: Primitives, s: Fields, v: Fields)
    requires LinesOf(p, s) == LinesOf(p, v)
    ensures SameView(p, s, v)
  {
    hide PathNoQuery;
    var a, b := Values(p, s), Values(p, v);
    assert |a| == |b|;
    forall i | 0 <= i < |a|
      ensures a[i] == b[i]
    {
      assert LinesOf(p, s)[i] == LinesOf(p, v)[i];
      CanonicalJson.Cancel(KEYS[i], a[i], b[i]);
    }
    assert a[1] == b[1] && a[2] == b[2] && a[3] == b[3] && a[4] == b[4];
    assert a[5] == b[5] && a[6] == b[6] && a[7] == b[7] && a[8] == b[8];
    Decimals.DigitsUnique(s.status, v.status);
    if s.claimsHex.Some? {
      assert a[9] == b[9];
    }
  }

  lemma SameViewSameLines(p: Primitives, s: Fields, v: Fields)
    requires SameView(p, s, v)
    ensures LinesOf(p, s) == LinesOf(p, v)
  {
  }

  /** For a clean signed statement, an equal rebuilt one shows the same view exactly when it is clean too. */
  lemma SameViewIffClean(p: Primitives, s: Fields, v: Fields)
    requires Clean(LinesOf(p, s)) && StatementText(p, v) == StatementText(p, s)
    ensures SameView(p, s, v) <==> Clean(LinesOf(p, v))
  {
    if Clean(LinesOf(p, v)) {
      CleanLinesUnique(LinesOf(p, s), LinesOf(p, v));
      SameLinesSameView(p, s, v);
    }
    if SameView(p, s, v) {
      SameViewSameLines(p, s, v);
    }
  }

  lemma HexIsClean(h: string)
    requires Hex64(h)
    ensures NoLf(h)
  {
  }

  /** What the verifier checks of the two digests and computes for the claims. */
  predicate DigestsChecked(f: Fields) {
    Hex64(f.requestHex) && Hex64(f.responseHex) && (f.claimsHex.Some? ==> Hex64(f.claimsHex.value))
  }

  /** The digest check alone makes the rebuilt statement clean, hence unambiguous. */
  lemma DigestCheckSuffices(p: Primitives, s: Fields, v: Fields)
    requires Clean(LinesOf(p, s)) && DigestsChecked(s) && DigestsChecked(v)
    requires StatementText(p, v) == StatementText(p, s)
    ensures SameView(p, s, v)
  {
    var ls, ms := LinesOf(p, s), LinesOf(p, v);
    LastValueClean(p, s);
    LastValueClean(p, v);
    CountUnlines(ls);
    CountUnlines(ms);
    ExtraZero(ls);
    ExtraZero(ms);
    if |ls| != |ms| {
      LastLineUnique(ls, ms);
      ClaimsLineDiffers(p, s);
      ClaimsLineDiffers(p, v);
    }
    SameViewIffClean(p, s, v);
  }

  lemma LastValueClean(p: Primitives, f: Fields)
    requires DigestsChecked(f)
    ensures NoLf(LinesOf(p, f)[|LinesOf(p, f)| - 1])
  {
    var i := |LinesOf(p, f)| - 1;
    HexIsClean(f.responseHex);
    assert NoLf(KEYS[8]) && NoLf(KEYS[9]);
    assert Values(p, f)[8] == f.responseHex;
  }

  lemma ClaimsLineDiffers(p: Primitives, f: Fields)
    ensures LinesOf(p, f)[|LinesOf(p, f)| - 1][0] == if f.claimsHex.Some? then 'f' else 'r'
  {
    assert KEYS[8][0] == 'r' && KEYS[9][0] == 'f';
  }

  /** Without the digest check the claims can be moved into the response digest, unseen by the signature. */
  lemma DigestCheckIsNeeded(p: Primitives, s: Fields)
    requires s.claimsHex.Some?
    ensures (var v := s.(responseHex := s.responseHex + "\nfield-claims-sha256=" + s.claimsHex.value, claimsHex := None);
             StatementText(p, v) == StatementText(p, s) && !SameView(p, s, v))
  {
    hide Unlines, Values;
    var r, c := s.responseHex, s.claimsHex.value;
    var v := s.(responseHex := r + "\nfield-claims-sha256=" + c, claimsHex := None);
    var ls, ms := LinesOf(p, s), LinesOf(p, v);
    ValuesAre(p, s);
    ValuesAre(p, v);
    assert ls[..8] == ms[..8];
    assert ls == ls[..8] + [KEYS[8] + r, KEYS[9] + c];
    assert ms == ms[..8] + [KEYS[8] + (r + "\nfield-claims-sha256=" + c)];
    UnlinesConcat(ls[..8], [KEYS[8] + r, KEYS[9] + c]);
    UnlinesConcat(ms[..8], [KEYS[8] + (r + "\nfield-claims-sha256=" + c)]);
    OneLineOrTwo(KEYS[8], r, KEYS[9], c);
    assert "\n" + "field-claims-sha256=" == "\nfield-claims-sha256=";
  }

  lemma OneLineOrTwo(k: string, r: string, l: string, c: string)
    ensures Unlines([k + r, l + c]) == Unlines([k + (r + ("\n" + l) + c)])
  {
    UnlinesTwo(k + r, l + c);
    UnlinesOne(k + (r + ("\n" + l) + c));
    assert k + r + "\n" + (l + c + "\n") == k + (r + ("\n" + l) + c) + "\n";
  }

  lemma UnlinesOne(l: string)
    ensures Unlines([l]) == l + "\n"
  {
    assert [l][1..] == [];
    assert Unlines([l]) == l + "\n" + Unlines([]);
    assert l + "\n" + "" == l + "\n";
  }

  lemma UnlinesTwo(a: string, b: string)
    ensures Unlines([a, b]) == a + "\n" + (b + "\n")
  {
    UnlinesOne(b);
    assert [a, b][1..] == [b];
  }
}
