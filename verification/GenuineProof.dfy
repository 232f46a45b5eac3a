/**
 The proof the enclave writes for an exchange, and that the verifier accepts it: which key of the proof carries
 which fact is stated here once for the writer, and the checks of the verifier are held against it.
 */
module GenuineProof {
  import opened Acceptance
  import opened Bytes
  import opened Json
  import opened KeyOrder
  import opened Statement
  import CanonicalJson
  import Utf8

  /** What the evidence back end adds; texts are in base64 where the source encodes octets. */
  datatype Evidence = Evidence(
    publicKey: string, signature: string, attestation: string, profile: string,
    pcr0: Option<string>, pcr8: Option<string>, measurements: Option<Value>)

  function Put(m: map<string, Value>, key: string, v: Option<Value>): map<string, Value> {
    if v.None? then m else m[key := v.value]
  }

  function Text(s: Option<string>): Option<Value> {
    if s.None? then None else Some(Str(s.value))
  }

  /** The entries every proof has. */
  function BaseEntries(p: Primitives, e: Exchange, v: Evidence): seq<(string, Value)> {
    [("v", Num(Int(2))), ("alg", Str("ed25519")), ("public_key", Str(v.publicKey)), ("nonce", Str(e.nonce)),
     ("upstream_host", Str(p.lower(e.host))), ("upstream_path", Str(PathNoQuery(e.path))), ("http_method", Str(p.upper(e.verb))),
     ("http_status", Num(Int(e.status))), ("resp_content_type", Str(e.contentType)),
     ("request_body_sha256", Str(p.sha256Hex(e.requestBody))), ("response_body_sha256", Str(p.sha256Hex(e.responseBody))),
     ("signature", Str(v.signature)), ("attestation", Str(v.attestation))]
  }

  /** `write_local_attested_trailer`. */
  function Trailer(p: Primitives, e: Exchange, v: Evidence): Value {
    var m0 := Put(Pairs(BaseEntries(p, e, v)), "profile", if v.profile != "nitro" then Some(Str(v.profile)) else None);
    var m1 := Put(m0, "pcr0", Text(v.pcr0));
    var m2 := Put(m1, "pcr8", Text(v.pcr8));
    var m3 := Put(m2, "measurements", v.measurements);
    Obj(Put(m3, "field_claims", e.claims))
  }

  // ----- Which key holds what -----

  const NAMES: seq<string> := [
    "v", "alg", "public_key", "nonce", "upstream_host", "upstream_path", "http_method", "http_status", "resp_content_type",
    "request_body_sha256", "response_body_sha256", "signature", "attestation"]

  const LENGTHS: seq<nat> := [1, 3, 10, 5, 13, 13, 11, 11, 17, 19, 20, 9, 11]

  lemma NamesHaveLengths()
    ensures |NAMES| == |LENGTHS| == 13 && forall i :: 0 <= i < 13 ==> |NAMES[i]| == LENGTHS[i]
    ensures NAMES[4][9] == 'h' && NAMES[5][9] == 'p' && NAMES[6][5] == 'm' && NAMES[7][5] == 's'
    ensures NAMES[12][0] == 'a' && NAMES[6][0] == NAMES[7][0] == 'h'
  {
  }

  lemma LengthsRepeat()
    ensures |LENGTHS| == 13
    ensures forall i, j :: 0 <= i < j < 13 && LENGTHS[i] == LENGTHS[j] ==>
              (i == 4 && j == 5) || (i == 6 && j == 7) || (i == 6 && j == 12) || (i == 7 && j == 12)
    ensures forall i :: 0 <= i < 13 ==> LENGTHS[i] != 4 && LENGTHS[i] != 7 && LENGTHS[i] != 8 && LENGTHS[i] != 12
  {
  }

  lemma NamesAreDistinct()
    ensures |NAMES| == 13 && forall i, j :: 0 <= i < j < 13 ==> NAMES[i] != NAMES[j]
    ensures forall i :: 0 <= i < 13 ==> |NAMES[i]| != 4 && |NAMES[i]| != 7 && |NAMES[i]| != 8 && |NAMES[i]| != 12
  {
    NamesHaveLengths();
    LengthsRepeat();
    hide NAMES, LENGTHS;
  }

  lemma BaseHas(p: Primitives, e: Exchange, v: Evidence, k: string)
    ensures var base := BaseEntries(p, e, v);
      && |base| == 13 && (forall i :: 0 <= i < 13 ==> base[i].0 == NAMES[i] && Json.Field(Pairs(base), base[i].0) == Some(base[i].1))
      && (|k| == 4 || |k| == 7 || |k| == 8 || |k| == 12 ==> k !in Pairs(base))
  {
    hide Pairs, PathNoQuery;
    var base := BaseEntries(p, e, v);
    assert |base| == 13 && forall i :: 0 <= i < 13 ==> base[i].0 == NAMES[i];
    NamesAreDistinct();
    hide NAMES, BaseEntries;
    forall i | 0 <= i < 13
      ensures Json.Field(Pairs(base), base[i].0) == Some(base[i].1)
    {
      PairsLookup(base, i);
    }
  }

  lemma OptionalNames()
    ensures |"profile"| == 7 && |"pcr0"| == |"pcr8"| == 4 && |"measurements"| == |"field_claims"| == 12 && |"evidence"| == 8
    ensures "pcr0" != "pcr8" && "measurements" != "field_claims"
  {
    assert "pcr0"[3] == '0' && "pcr8"[3] == '8' && "measurements"[0] == 'm' && "field_claims"[0] == 'f';
  }

  /** The optional entries do not touch the others. */
  lemma TrailerHas(p: Primitives, e: Exchange, v: Evidence, k: string)
    ensures |k| != 4 && |k| != 7 && |k| != 12 ==> Trailer(p, e, v).Get(k) == Json.Field(Pairs(BaseEntries(p, e, v)), k)
    ensures Trailer(p, e, v).Get("field_claims") == e.claims
    ensures Trailer(p, e, v).Get("profile") == if v.profile != "nitro" then Some(Str(v.profile)) else None
    ensures Trailer(p, e, v).Get("evidence") == None
  {
    hide Pairs, BaseEntries, Put;
    OptionalNames();
    BaseHas(p, e, v, "field_claims");
    BaseHas(p, e, v, "profile");
    BaseHas(p, e, v, "evidence");
    Chained(p, e, v, k);
    Chained(p, e, v, "field_claims");
    Chained(p, e, v, "profile");
    Chained(p, e, v, "evidence");
  }

  lemma PutGet(m: map<string, Value>, key: string, v: Option<Value>, k: string)
    ensures Json.Field(Put(m, key, v), k) == if k == key && v.Some? then v else Json.Field(m, k)
  {
  }

  lemma Chained(p: Primitives, e: Exchange, v: Evidence, k: string)
    ensures Trailer(p, e, v).Get(k) ==
      if k == "field_claims" && e.claims.Some? then e.claims
      else if k == "measurements" && v.measurements.Some? then v.measurements
      else if k == "pcr8" && v.pcr8.Some? then Text(v.pcr8)
      else if k == "pcr0" && v.pcr0.Some? then Text(v.pcr0)
      else if k == "profile" && v.profile != "nitro" then Some(Str(v.profile))
      else Json.Field(Pairs(BaseEntries(p, e, v)), k)
  {
    hide Pairs, BaseEntries, Put;
    var m := Pairs(BaseEntries(p, e, v));
    var profile := if v.profile != "nitro" then Some(Str(v.profile)) else None;
    var m0 := Put(m, "profile", profile);
    var m1 := Put(m0, "pcr0", Text(v.pcr0));
    var m2 := Put(m1, "pcr8", Text(v.pcr8));
    var m3 := Put(m2, "measurements", v.measurements);
    PutGet(m, "profile", profile, k);
    PutGet(m0, "pcr0", Text(v.pcr0), k);
    PutGet(m1, "pcr8", Text(v.pcr8), k);
    PutGet(m2, "measurements", v.measurements, k);
    PutGet(m3, "field_claims", e.claims, k);
  }

  /** Every key of the proof, one by one. */
  lemma TrailerSays(p: Primitives, e: Exchange, v: Evidence)
    ensures var t := Trailer(p, e, v);
      && t.Obj? && t.Get("v") == Some(Num(Int(2))) && Says(t, "alg", "ed25519")
      && Says(t, "public_key", v.publicKey) && Says(t, "nonce", e.nonce)
      && Says(t, "upstream_host", p.lower(e.host)) && Says(t, "upstream_path", PathNoQuery(e.path))
      && Says(t, "http_method", p.upper(e.verb)) && t.Get("http_status") == Some(Num(Int(e.status)))
      && Says(t, "resp_content_type", e.contentType)
      && Says(t, "request_body_sha256", p.sha256Hex(e.requestBody))
      && Says(t, "response_body_sha256", p.sha256Hex(e.responseBody))
      && Says(t, "signature", v.signature) && Says(t, "attestation", v.attestation)
  {
    hide Pairs, PathNoQuery, Trailer;
    var base := BaseEntries(p, e, v);
    BaseHas(p, e, v, "");
    NamesHaveLengths();
    LengthsRepeat();
    forall i | 0 <= i < 13
      ensures Trailer(p, e, v).Get(base[i].0) == Some(base[i].1)
    {
      TrailerHas(p, e, v, base[i].0);
    }
    TrailerIsObject(p, e, v);
    var t := Trailer(p, e, v);
    assert t.Get(base[0].0) == Some(base[0].1) && t.Get(base[1].0) == Some(base[1].1) && t.Get(base[2].0) == Some(base[2].1);
    assert t.Get(base[3].0) == Some(base[3].1) && t.Get(base[4].0) == Some(base[4].1) && t.Get(base[5].0) == Some(base[5].1);
    assert t.Get(base[6].0) == Some(base[6].1) && t.Get(base[7].0) == Some(base[7].1) && t.Get(base[8].0) == Some(base[8].1);
    assert t.Get(base[9].0) == Some(base[9].1) && t.Get(base[10].0) == Some(base[10].1);
    assert t.Get(base[11].0) == Some(base[11].1) && t.Get(base[12].0) == Some(base[12].1);
  }

  lemma TrailerIsObject(p: Primitives, e: Exchange, v: Evidence)
    ensures Trailer(p, e, v).Obj?
  {
  }

  // ----- The verifier's checks -----

  /** A text of at most a mebibyte in UTF-8. */
  predicate Short(s: string) {
    |Utf8.Encode(s)| <= 0x10_0000
  }

  lemma HexIsShort(h: string)
    requires Hex64(h)
    ensures Short(h)
  {
    Utf8.AsciiLength(h);
  }

  /** The required strings, one by one. */
  lemma RequiredOneByOne(t: Value)
    ensures (forall i :: 0 <= i < |REQUIRED| ==> StringWithin(t.Get(REQUIRED[i]))) <==>
      && StringWithin(t.Get("public_key")) && StringWithin(t.Get("nonce")) && StringWithin(t.Get("upstream_host"))
      && StringWithin(t.Get("upstream_path")) && StringWithin(t.Get("http_method")) && StringWithin(t.Get("resp_content_type"))
      && StringWithin(t.Get("request_body_sha256")) && StringWithin(t.Get("response_body_sha256"))
      && StringWithin(t.Get("signature")) && StringWithin(t.Get("attestation"))
  {
    hide StringWithin;
    RequiredNames();
    hide REQUIRED;
  }

  lemma SaidWithin(t: Value, key: string, s: string)
    requires Says(t, key, s)
    ensures StringWithin(t.Get(key)) <==> Short(s)
  {
    hide Utf8.Encode;
  }

  lemma ShapeOneByOne(t: Value)
    ensures WireOk(t) <==>
      && t.Obj? && t.Get("v") == Some(Num(Int(2))) && t.Get("alg") == Some(Str("ed25519"))
      && StringWithin(t.Get("public_key")) && StringWithin(t.Get("nonce")) && StringWithin(t.Get("upstream_host"))
      && StringWithin(t.Get("upstream_path")) && StringWithin(t.Get("http_method")) && StringWithin(t.Get("resp_content_type"))
      && StringWithin(t.Get("request_body_sha256")) && StringWithin(t.Get("response_body_sha256"))
      && StringWithin(t.Get("signature")) && StringWithin(t.Get("attestation")) && StatusOk(t.Get("http_status"))
      && (t.Get("profile").Some? ==> t.Get("profile").value.Str?)
      && (t.Get("evidence").Some? ==> t.Get("evidence").value.Obj?)
      && (t.Get("field_claims").Some? ==> t.Get("field_claims").value.Obj?)
      && Hex64(AsStr(t.Get("request_body_sha256")).GetOr("")) && Hex64(AsStr(t.Get("response_body_sha256")).GetOr(""))
  {
    hide StringWithin, StatusOk, Hex64;
    RequiredOneByOne(t);
    hide REQUIRED;
  }

  /**
   The proof has the required shape exactly when its texts are short, the status is one of HTTP, and claims are an
   object.
   */
  lemma GenuineShapeIff(p: Primitives, e: Exchange, v: Evidence)
    requires Sound(p)
    ensures WireOk(Trailer(p, e, v)) <==>
      && Short(v.publicKey) && Short(e.nonce) && Short(p.lower(e.host)) && Short(PathNoQuery(e.path)) && Short(p.upper(e.verb))
      && Short(e.contentType) && Short(v.signature) && Short(v.attestation)
      && 100 <= e.status <= 599 && (e.claims.Some? ==> e.claims.value.Obj?)
  {
    var t := Trailer(p, e, v);
    var a, b := p.sha256Hex(e.requestBody), p.sha256Hex(e.responseBody);
    assert Hex64(a) && Hex64(b);
    TrailerSays(p, e, v);
    TrailerHas(p, e, v, "");
    HexIsShort(a);
    HexIsShort(b);
    hide Trailer, StringWithin, Short, Hex64, PathNoQuery, Sound, REQUIRED, WireOk;
    ShapeOneByOne(t);
    SaidWithin(t, "public_key", v.publicKey);
    SaidWithin(t, "nonce", e.nonce);
    SaidWithin(t, "upstream_host", p.lower(e.host));
    SaidWithin(t, "upstream_path", PathNoQuery(e.path));
    SaidWithin(t, "http_method", p.upper(e.verb));
    SaidWithin(t, "resp_content_type", e.contentType);
    SaidWithin(t, "request_body_sha256", a);
    SaidWithin(t, "response_body_sha256", b);
    SaidWithin(t, "signature", v.signature);
    SaidWithin(t, "attestation", v.attestation);
  }

  lemma RequiredNames()
    ensures |REQUIRED| == 10
    ensures REQUIRED[0] == "public_key" && REQUIRED[1] == "nonce" && REQUIRED[2] == "upstream_host" && REQUIRED[3] == "upstream_path"
    ensures REQUIRED[4] == "http_method" && REQUIRED[5] == "resp_content_type" && REQUIRED[6] == "request_body_sha256"
    ensures REQUIRED[7] == "response_body_sha256" && REQUIRED[8] == "signature" && REQUIRED[9] == "attestation"
  {
  }

  /** The verifier rebuilds exactly the fields that were signed, but for the claims, which it prints its own way. */
  lemma FieldsComeBack(p: Primitives, e: Exchange, v: Evidence)
    requires WireOk(Trailer(p, e, v))
    ensures ProofFields(p, Trailer(p, e, v)) == SignedFields(p, e).(claimsHex := ClaimsHex(p, Verifier, e.claims))
  {
    TrailerSays(p, e, v);
    TrailerHas(p, e, v, "");
    var t := Trailer(p, e, v);
    assert t.Get("http_status") == Some(t.fields["http_status"]);
    hide Trailer, WireOk, PathNoQuery, Hashed;
  }

  /**
   A genuine proof passes the signature check with the body the enclave hashed, if the signature verifies for the
   bytes that were signed - and, where it has claims, if both printers list their keys alike.
   */
  lemma GenuineProofPasses(p: Primitives, e: Exchange, v: Evidence, verifies: seq<byte> -> bool)
    requires WireOk(Trailer(p, e, v)) && verifies(Utf8.Encode(StatementText(p, SignedFields(p, e))))
    requires e.claims.Some? ==> CanonicalJson.KeysAlike(e.claims.value)
    ensures ProofFields(p, Trailer(p, e, v)) == SignedFields(p, e)
    ensures SignatureCheck(p, Trailer(p, e, v), e.responseBody, verifies)
  {
    FieldsComeBack(p, e, v);
    if e.claims.Some? {
      CanonicalJson.PrintersAgree(e.claims.value);
    }
    hide Trailer, WireOk, StatementText, CanonicalJson.Print, PathNoQuery, Utf8.Encode;
  }
}
