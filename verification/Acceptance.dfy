/**
 Accepting a proof: the verifier's checks on an untrusted proof object, and what an accepted signature
 says about the exchange the enclave observed.
 */
module Acceptance {
  import opened Bytes
  import opened Json
  import opened KeyOrder
  import opened Statement
  import CanonicalJson
  import Decimals
  import Utf8

  const MAX_PROOF_STRING_BYTES: nat := 0x10_0000

  const REQUIRED: seq<string> := [
    "public_key", "nonce", "upstream_host", "upstream_path", "http_method", "resp_content_type",
    "request_body_sha256", "response_body_sha256", "signature", "attestation"]

  // ----- The proof on the wire -----

  // A JavaScript number with an integral value, however it was written, is an Int here.

  predicate StringWithin(v: Option<Value>) {
    v.Some? && v.value.Str? && |Utf8.Encode(v.value.s)| <= MAX_PROOF_STRING_BYTES
  }

  predicate StatusOk(v: Option<Value>) {
    v.Some? && v.value.Num? && v.value.n.Int? && 100 <= v.value.n.i <= 599
  }

  /** The shape every accepted proof has. */
  predicate WireOk(proof: Value) {
    && proof.Obj?
    && proof.Get("v") == Some(Num(Int(2)))
    && proof.Get("alg") == Some(Str("ed25519"))
    && (forall i :: 0 <= i < |REQUIRED| ==> StringWithin(proof.Get(REQUIRED[i])))
    && StatusOk(proof.Get("http_status"))
    && (proof.Get("profile").Some? ==> proof.Get("profile").value.Str?)
    && (proof.Get("evidence").Some? ==> proof.Get("evidence").value.Obj?)
    && (proof.Get("field_claims").Some? ==> proof.Get("field_claims").value.Obj?)
    && Hex64(AsStr(proof.Get("request_body_sha256")).GetOr(""))
    && Hex64(AsStr(proof.Get("response_body_sha256")).GetOr(""))
  }

  /**
   `verifyWireEnvelope`: collects every complaint, here by the field it is about; the check passes when there is
   none.
   */
  method VerifyWireEnvelope(proof: Value) returns (errors: seq<string>)
    ensures errors == [] <==> WireOk(proof)
  {
    hide Hex64, Utf8.Encode, StatusOk, StringWithin;
    if !proof.Obj? {
      return ["proof"];
    }
    errors := [];
    if proof.Get("v") != Some(Num(Int(2))) {
      errors := errors + ["v"];
    }
    if proof.Get("alg") != Some(Str("ed25519")) {
      errors := errors + ["alg"];
    }
    var missing := CheckRequiredStrings(proof);
    errors := errors + missing;
    if !StatusOk(proof.Get("http_status")) {
      errors := errors + ["http_status"];
    }
    if proof.Get("profile").Some? && !proof.Get("profile").value.Str? {
      errors := errors + ["profile"];
    }
    if proof.Get("evidence").Some? && !proof.Get("evidence").value.Obj? {
      errors := errors + ["evidence"];
    }
    if proof.Get("field_claims").Some? && !proof.Get("field_claims").value.Obj? {
      errors := errors + ["field_claims"];
    }
    var request, response := AsStr(proof.Get("request_body_sha256")), AsStr(proof.Get("response_body_sha256"));
    RequiredDigests(proof);
    if request.Some? && !Hex64(request.value) {
      errors := errors + ["request_body_sha256"];
    }
    if response.Some? && !Hex64(response.value) {
      errors := errors + ["response_body_sha256"];
    }
  }

  /** The loop of `verifyWireEnvelope` over the required string fields. */
  method CheckRequiredStrings(proof: Value) returns (errors: seq<string>)
    ensures errors == [] <==> forall i :: 0 <= i < |REQUIRED| ==> StringWithin(proof.Get(REQUIRED[i]))
  {
    hide Utf8.Encode;
    var fields := REQUIRED;
    errors := [];
    for i := 0 to |fields|
      invariant errors == [] <==> forall k :: 0 <= k < i ==> StringWithin(proof.Get(fields[k]))
    {
      var value := proof.Get(fields[i]);
      if AsStr(value).None? {
        errors := errors + [fields[i]];
        continue;
      }
      if |Utf8.Encode(value.value.s)| > MAX_PROOF_STRING_BYTES {
        errors := errors + [fields[i]];
      }
    }
  }

  lemma RequiredDigests(proof: Value)
    ensures (forall i :: 0 <= i < |REQUIRED| ==> StringWithin(proof.Get(REQUIRED[i]))) ==>
              AsStr(proof.Get("request_body_sha256")).Some? && AsStr(proof.Get("response_body_sha256")).Some?
  {
    hide Utf8.Encode;
    assert REQUIRED[6] == "request_body_sha256" && REQUIRED[7] == "response_body_sha256";
  }

  /** What each side hashes: the canonical text of a value by its own printer. */
  function Hashed(q: Printer, v: Value): seq<byte> {
    Utf8.Encode(CanonicalJson.Print(q, v))
  }

  function ClaimsHex(p: Primitives, q: Printer, claims: Option<Value>): Option<string> {
    if claims.None? then None else Some(p.sha256Hex(Hashed(q, claims.value)))
  }

  function Text(proof: Value, key: string): string {
    AsStr(proof.Get(key)).GetOr("")
  }

  /** The statement fields the verifier takes from the proof. */
  function ProofFields(p: Primitives, proof: Value): Fields
    requires WireOk(proof)
  {
    Fields(Text(proof, "nonce"), Text(proof, "upstream_host"), Text(proof, "upstream_path"), Text(proof, "http_method"),
           proof.fields["http_status"].n.i, Text(proof, "resp_content_type"),
           Text(proof, "request_body_sha256"), Text(proof, "response_body_sha256"), ClaimsHex(p, Verifier, proof.Get("field_claims")))
  }

  // ----- What the enclave signs -----

  /** One exchange the enclave signed a statement for. */
  datatype Exchange = Exchange(
    nonce: string, host: string, path: string, verb: string, status: nat, contentType: string,
    requestBody: seq<byte>, responseBody: seq<byte>, claims: Option<Value>)

  predicate Base64Char(c: char) {
    'A' <= c <= 'Z' || 'a' <= c <= 'z' || '0' <= c <= '9' || c == '+' || c == '/' || c == '='
  }

  lemma Base64Iff(c: char)
    ensures Base64Char(c) <==>
      c in "ABCDEFGHIJKLMNOPQRSTUVWXYZ" || c in "abcdefghijklmnopqrstuvwxyz" || c in "0123456789" || c in "+/="
  {
    var capitals, letters, digits := "ABCDEFGHIJKLMNOPQRSTUVWXYZ", "abcdefghijklmnopqrstuvwxyz", "0123456789";
    Ascending(capitals, 'A', c);
    Ascending(letters, 'a', c);
    Ascending(digits, '0', c);
  }

  /** A run of consecutive characters. */
  lemma Ascending(s: string, first: char, c: char)
    requires forall i :: 0 <= i < |s| ==> s[i] as int == first as int + i
    ensures c in s <==> first as int <= c as int < first as int + |s|
  {
    if first as int <= c as int < first as int + |s| {
      assert s[c as int - first as int] == c;
    }
  }

  /** The checks an exchange passes before it is signed. */
  predicate Signable(e: Exchange) {
    && (forall i :: 0 <= i < |e.nonce| ==> Base64Char(e.nonce[i]))
    && NoCrlf(e.host) && NoCrlf(e.path) && NoCrlf(e.verb) && NoCrlf(e.contentType)
  }

  /** What the enclave hands to its printer: host, path and method are normalised before. */
  function SignedFields(p: Primitives, e: Exchange): Fields {
    Fields(e.nonce, p.lower(e.host), PathNoQuery(e.path), p.upper(e.verb), e.status, e.contentType,
           p.sha256Hex(e.requestBody), p.sha256Hex(e.responseBody), ClaimsHex(p, Enclave, e.claims))
  }

  /** Digits and prefixes of clean text are clean, so a signable exchange has a clean statement. */
  lemma SignableIsClean(p: Primitives, e: Exchange)
    requires Sound(p) && Signable(e)
    ensures Clean(LinesOf(p, SignedFields(p, e)))
  {
    hide PathNoQuery, Decimals.Digits;
    var f := SignedFields(p, e);
    ValuesAre(p, f);
    var vs := Values(p, f);
    assert NoLf(e.nonce);
    assert NoLf(e.host) && NoLf(e.verb) && NoLf(e.path);
    assert NoLf(f.host) && NoLf(f.verb) && NoLf(f.path) && NoLf(f.contentType);
    assert NoLf(PathNoQuery(f.path));
    assert NoLf(Decimals.Digits(f.status));
    HexIsClean(f.requestHex);
    HexIsClean(f.responseHex);
    assert forall i :: 0 <= i < |vs| ==> NoLf(vs[i]);
    KeysAreClean();
    forall i | 0 <= i < |LinesOf(p, f)|
      ensures NoLf(LinesOf(p, f)[i])
    {
      assert NoLf(KEYS[i]) && NoLf(vs[i]);
    }
  }

  lemma KeysAreClean()
    ensures forall i :: 0 <= i < |KEYS| ==> NoLf(KEYS[i])
  {
  }

  /** The signature check verifies only texts that were signed under the bound key. */
  ghost predicate OnlySigned(p: Primitives, log: seq<Exchange>, verifies: seq<byte> -> bool) {
    forall m: seq<byte> :: verifies(m) ==> exists i :: 0 <= i < |log| && m == Utf8.Encode(StatementText(p, SignedFields(p, log[i])))
  }

  /** The hash does not collide on these two inputs. */
  predicate NoCollision(p: Primitives, a: seq<byte>, b: seq<byte>) {
    p.sha256Hex(a) == p.sha256Hex(b) ==> a == b
  }

  /** `fieldMode`: a proof with field claims. */
  predicate FieldMode(proof: Value) {
    proof.Get("field_claims").Some?
  }

  /** `verifySignatureCheck`: signature over the rebuilt statement; the body digest binds only without field claims. */
  predicate SignatureCheck(p: Primitives, proof: Value, body: seq<byte>, verifies: seq<byte> -> bool)
    requires WireOk(proof)
  {
    var f := ProofFields(p, proof);
    verifies(Utf8.Encode(StatementText(p, f))) && (FieldMode(proof) || p.sha256Hex(body) == f.responseHex)
  }

  /** With field claims this check accepts every body or none: what binds the body then is the claims. */
  lemma FieldModeIgnoresBody(p: Primitives, proof: Value, verifies: seq<byte> -> bool, body: seq<byte>,
                             other: seq<byte>)
    requires WireOk(proof)
    ensures FieldMode(proof) ==> (SignatureCheck(p, proof, body, verifies) <==> SignatureCheck(p, proof, other, verifies))
    ensures !FieldMode(proof) && SignatureCheck(p, proof, body, verifies) ==>
              (SignatureCheck(p, proof, other, verifies) <==> p.sha256Hex(other) == p.sha256Hex(body))
  {
  }

  /**
   An accepted proof shows the view of an exchange the enclave signed: same normalised host, path and
   method, same status, content type, nonce and digests, and the same claims or the same absence of claims.
   */
  lemma AcceptedWasSigned(p: Primitives, log: seq<Exchange>, proof: Value, verifies: seq<byte> -> bool) returns (i: nat)
    requires Sound(p) && OnlySigned(p, log, verifies) && WireOk(proof)
    requires forall k :: 0 <= k < |log| ==> Signable(log[k])
    requires verifies(Utf8.Encode(StatementText(p, ProofFields(p, proof))))
    ensures i < |log| && SameView(p, SignedFields(p, log[i]), ProofFields(p, proof))
    ensures log[i].claims.Some? <==> proof.Get("field_claims").Some?
    ensures Shows(p, proof, log[i])
  {
    hide Unlines, LinesOf, PathNoQuery, Text, CanonicalJson.Print, WireOk;
    var v := ProofFields(p, proof);
    var m := Utf8.Encode(StatementText(p, v));
    i :| 0 <= i < |log| && m == Utf8.Encode(StatementText(p, SignedFields(p, log[i])));
    var s := SignedFields(p, log[i]);
    Utf8.LossyOfEncode(StatementText(p, v));
    Utf8.LossyOfEncode(StatementText(p, s));
    SignableIsClean(p, log[i]);
    ProofDigestsChecked(p, proof);
    DigestCheckSuffices(p, s, v);
    SameViewShows(p, proof, log[i]);
  }

  /** A text entry of the proof. */
  predicate Says(proof: Value, key: string, text: string) {
    proof.Get(key) == Some(Str(text))
  }

  /** What the proof says under each of its keys is what the exchange was, up to case and query. */
  ghost predicate Shows(p: Primitives, proof: Value, e: Exchange) {
    && Says(proof, "nonce", e.nonce)
    && (exists host :: Says(proof, "upstream_host", host) && p.lower(host) == p.lower(e.host))
    && (exists path :: Says(proof, "upstream_path", path) && PathNoQuery(path) == PathNoQuery(e.path))
    && (exists verb :: Says(proof, "http_method", verb) && p.upper(verb) == p.upper(e.verb))
    && proof.Get("http_status") == Some(Num(Int(e.status)))
    && Says(proof, "resp_content_type", e.contentType)
    && Says(proof, "request_body_sha256", p.sha256Hex(e.requestBody))
    && Says(proof, "response_body_sha256", p.sha256Hex(e.responseBody))
    && (proof.Get("field_claims").Some? <==> e.claims.Some?)
    && (e.claims.Some? ==>
          p.sha256Hex(Hashed(Verifier, proof.Get("field_claims").value)) == p.sha256Hex(Hashed(Enclave, e.claims.value)))
  }

  /** Every string the statement needs is there. */
  lemma RequiredAreSaid(proof: Value)
    requires WireOk(proof)
    ensures Says(proof, "nonce", Text(proof, "nonce")) && Says(proof, "upstream_host", Text(proof, "upstream_host"))
    ensures Says(proof, "upstream_path", Text(proof, "upstream_path"))
    ensures Says(proof, "http_method", Text(proof, "http_method"))
    ensures Says(proof, "resp_content_type", Text(proof, "resp_content_type"))
    ensures Says(proof, "request_body_sha256", Text(proof, "request_body_sha256"))
    ensures Says(proof, "response_body_sha256", Text(proof, "response_body_sha256"))
  {
    hide Utf8.Encode, Hex64;
    assert StringWithin(proof.Get(REQUIRED[1])) && StringWithin(proof.Get(REQUIRED[2]));
    assert StringWithin(proof.Get(REQUIRED[3])) && StringWithin(proof.Get(REQUIRED[4]));
    assert StringWithin(proof.Get(REQUIRED[5])) && StringWithin(proof.Get(REQUIRED[6]));
    assert StringWithin(proof.Get(REQUIRED[7]));
  }

  /** The same view is the same under every key. */
  lemma SameViewShows(p: Primitives, proof: Value, e: Exchange)
    requires Sound(p) && WireOk(proof)
    ensures SameView(p, SignedFields(p, e), ProofFields(p, proof)) <==> Shows(p, proof, e)
  {
    RequiredAreSaid(proof);
    PathTwice(e.path);
    assert proof.Get("http_status") == Some(Num(Int(ProofFields(p, proof).status)));
    hide WireOk, PathNoQuery, Hashed, Text;
  }

  lemma ProofDigestsChecked(p: Primitives, proof: Value)
    requires Sound(p) && WireOk(proof)
    ensures DigestsChecked(ProofFields(p, proof))
  {
  }

  /**
   Without field claims, and no collision among the inputs at hand, the received body is the one the enclave hashed.
   */
  lemma AcceptedBodyIsGenuine(p: Primitives, log: seq<Exchange>, proof: Value, body: seq<byte>,
                              verifies: seq<byte> -> bool) returns (i: nat)
    requires Sound(p) && OnlySigned(p, log, verifies) && WireOk(proof)
    requires forall k :: 0 <= k < |log| ==> Signable(log[k]) && NoCollision(p, log[k].responseBody, body)
    requires SignatureCheck(p, proof, body, verifies) && !FieldMode(proof)
    ensures i < |log| && SameView(p, SignedFields(p, log[i]), ProofFields(p, proof))
    ensures log[i].responseBody == body
  {
    hide Unlines, LinesOf, PathNoQuery, Text, CanonicalJson.Print, WireOk;
    i := AcceptedWasSigned(p, log, proof, verifies);
    assert NoCollision(p, log[i].responseBody, body);
  }

  /**
   And what the verifier's printer shows of the claims in the proof are the claims the enclave made, as JSON
   values: the same claims, but for entries that set a prototype.
   */
  lemma AcceptedClaimsAreGenuine(p: Primitives, e: Exchange, proof: Value)
    requires WireOk(proof) && SameView(p, SignedFields(p, e), ProofFields(p, proof))
    requires e.claims.Some? && proof.Get("field_claims").Some?
    requires CanonicalJson.WellFormed(e.claims.value) && CanonicalJson.WellFormed(proof.Get("field_claims").value)
    requires NoCollision(p, Hashed(Enclave, e.claims.value), Hashed(Verifier, proof.Get("field_claims").value))
    ensures e.claims.value == CanonicalJson.Shown(Verifier, proof.Get("field_claims").value)
    ensures CanonicalJson.KeysAlike(e.claims.value)
    ensures CanonicalJson.NoProto(proof.Get("field_claims").value) <==> e.claims == proof.Get("field_claims")
  {
    hide CanonicalJson.Print, CanonicalJson.WellFormed, CanonicalJson.Shown, CanonicalJson.NoProto,
         CanonicalJson.KeysAlike,
         WireOk, Text, PathNoQuery, Hashed;
    SameHashedIff(e.claims.value, proof.Get("field_claims").value);
    CanonicalJson.ShownInFullIff(proof.Get("field_claims").value);
  }

  /** Equal octets are equal texts. */
  lemma SameHashedIff(a: Value, b: Value)
    requires CanonicalJson.WellFormed(a) && CanonicalJson.WellFormed(b)
    ensures Hashed(Enclave, a) == Hashed(Verifier, b)
        <==> a == CanonicalJson.Shown(Verifier, b) && CanonicalJson.KeysAlike(a)
  {
    hide CanonicalJson.Print, CanonicalJson.WellFormed, CanonicalJson.Shown, CanonicalJson.KeysAlike;
    Utf8.LossyOfEncode(CanonicalJson.Print(Enclave, a));
    Utf8.LossyOfEncode(CanonicalJson.Print(Verifier, b));
    CanonicalJson.SameTextIff(a, b);
  }

  /** Such an entry goes unseen: adding one to the claims, at any depth, leaves the rebuilt statement as it was. */
  lemma ProtoGoesUnseen(p: Primitives, proof: Value, other: Value)
    requires WireOk(proof) && WireOk(other) && proof.Get("field_claims").Some? && other.Get("field_claims").Some?
    requires forall k :: k != "field_claims" ==> proof.Get(k) == other.Get(k)
    requires CanonicalJson.Shown(Verifier, proof.Get("field_claims").value)
        == CanonicalJson.Shown(Verifier, other.Get("field_claims").value)
    ensures ProofFields(p, proof) == ProofFields(p, other)
  {
    hide CanonicalJson.Print, CanonicalJson.Shown, StringWithin, Hex64, Utf8.Encode;
    CanonicalJson.PrintShown(proof.Get("field_claims").value);
    CanonicalJson.PrintShown(other.Get("field_claims").value);
    assert |"field_claims"| == 12;
    assert |"nonce"| == 5 && |"upstream_host"| == |"upstream_path"| == 13 && |"http_method"| == |"http_status"| == 11;
    assert |"resp_content_type"| == 17 && |"request_body_sha256"| == 19 && |"response_body_sha256"| == 20;
    assert proof.Get("http_status") == other.Get("http_status");
    assert proof.Get("nonce") == other.Get("nonce") && proof.Get("upstream_host") == other.Get("upstream_host");
    assert proof.Get("upstream_path") == other.Get("upstream_path") && proof.Get("http_method") == other.Get("http_method");
  }
}
