/**
 Field claims: the enclave hashes its view of the request and of the response into the signed claims, and the
 verifier compares them with its own view of what it received. With claims this comparison, and not the body
 digest, is what ties the received body to the exchange.
 */
module FieldProof {
  import opened Acceptance
  import opened Bytes
  import opened ChatFold
  import opened ChatFoldTs
  import opened Collector
  import opened Json
  import opened KeyOrder
  import opened SseStream
  import opened Statement
  import opened Text
  import opened VerifierReading
  import CanonicalJson
  import GenuineProof
  import Utf8

  datatype Kind = Request | Response

  /** The protocol tables and the verifier's extraction of a view, for a protocol, a kind, a body and a path. */
  datatype Rules = Rules(
    supported: string -> bool,
    policyId: string -> string,
    present: (string, Kind, Value) -> bool,
    view: (string, Kind, seq<byte>, string) -> Value)

  // ----- The claims -----

  /** What the enclave folded for one exchange. */
  datatype Folded = Folded(protocol: string, requestView: Value, responseView: Value, streaming: bool)

  /** The claims that repeat the statement or are fixed by the protocol, as both sides know them. */
  function SharedClaims(rules: Rules, protocol: string, nonce: string, host: string, path: string, verb: string,
                        status: int)
    : seq<(string, Value)>
  {
    [("request_schema_version", Str(protocol + ".v1")),
     ("response_schema_version", Str(protocol + ".v1")),
     ("field_policy_id", Str(rules.policyId(protocol))),
     ("assurance_level", Str("strong")),
     ("cross_protocol", Bool(false)),
     ("semantic_equivalence_not_proven", Bool(false)),
     ("body_hash_policy", Str("advisory")),
     ("request_body_sha256_severity", Str("advisory")),
     ("response_body_sha256_severity", Str("advisory")),
     ("nonce", Str(nonce)),
     ("upstream_host", Str(host)),
     ("upstream_path", Str(PathNoQuery(path))),
     ("http_method", Str(verb)),
     ("http_status", Num(Int(status))),
     ("proof_type", Str("field-proof")),
     ("verification_mode", Str("field_claims"))]
  }

  /** `to_ascii_lowercase`, `to_ascii_uppercase`. */
  function AsciiLower(s: string): string {
    seq(|s|, i requires 0 <= i < |s| => if 'A' <= s[i] <= 'Z' then s[i] - 'A' + 'a' else s[i])
  }

  function AsciiUpper(s: string): string {
    seq(|s|, i requires 0 <= i < |s| => if 'a' <= s[i] <= 'z' then s[i] - 'a' + 'A' else s[i])
  }

  /** The common claims as the enclave makes them. */
  function SignedClaims(p: Primitives, rules: Rules, protocol: string, e: Exchange): seq<(string, Value)> {
    SharedClaims(rules, protocol, e.nonce, AsciiLower(e.host), e.path, AsciiUpper(p.upper(e.verb)), e.status)
  }

  /** And as the verifier expects them. */
  function ExpectedClaims(p: Primitives, rules: Rules, protocol: string, proof: Value): seq<(string, Value)>
    requires WireOk(proof)
  {
    var f := ProofFields(p, proof);
    SharedClaims(rules, protocol, f.nonce, p.lower(f.host), f.path, p.upper(f.verb), f.status)
  }

  const FAMILY := "protocol_family"
  const REQUEST_HASH := "upstream_request_fields_sha256"
  const RESPONSE_HASH := "upstream_response_fields_sha256"

  /** `build_field_claims_from_views`, once both views are present. */
  function ClaimsFor(p: Primitives, rules: Rules, e: Exchange, f: Folded): Value {
    Obj(Pairs(SignedClaims(p, rules, f.protocol, e)
              + [("v", Num(Int(1))), ("streaming", Bool(f.streaming))])
          [FAMILY := Str(f.protocol)]
          [REQUEST_HASH := Str(p.sha256Hex(Hashed(Enclave, f.requestView)))]
          [RESPONSE_HASH := Str(p.sha256Hex(Hashed(Enclave, f.responseView)))])
  }

  /** The claims of a signed exchange: none, or those for what was folded. */
  predicate ClaimsAre(p: Primitives, rules: Rules, e: Exchange, f: Option<Folded>) {
    e.claims == if f.None? then None else Some(ClaimsFor(p, rules, e, f.value))
  }

  lemma NamesDiffer()
    ensures FAMILY != REQUEST_HASH && FAMILY != RESPONSE_HASH && REQUEST_HASH != RESPONSE_HASH
    ensures FAMILY != PROTO && REQUEST_HASH != PROTO && RESPONSE_HASH != PROTO
  {
    assert PROTO[0] == '_';
    assert FAMILY[0] == 'p' && REQUEST_HASH[0] == 'u' && RESPONSE_HASH[0] == 'u';
    assert |REQUEST_HASH| != |RESPONSE_HASH|;
  }

  /** The three claims that carry content. */
  lemma ContentOf(p: Primitives, rules: Rules, e: Exchange, f: Folded)
    ensures var c := ClaimsFor(p, rules, e, f);
      && c.Get(FAMILY) == Some(Str(f.protocol))
      && c.Get(REQUEST_HASH) == Some(Str(p.sha256Hex(Hashed(Enclave, f.requestView))))
      && c.Get(RESPONSE_HASH) == Some(Str(p.sha256Hex(Hashed(Enclave, f.responseView))))
  {
    hide Pairs, SignedClaims, Hashed;
    NamesDiffer();
  }

  // ----- What the verifier checks -----

  /** `validateFieldClaimsEnvelope` and the two tests in front of it: every common claim is as expected. */
  predicate EnvelopeOk(p: Primitives, rules: Rules, protocol: string, claims: Value, proof: Value)
    requires WireOk(proof)
  {
    var expected := ExpectedClaims(p, rules, protocol, proof);
    forall i :: 0 <= i < |expected| ==> claims.Get(expected[i].0) == Some(expected[i].1)
  }

  /** The view of a body is present and hashes to the claimed digest. */
  predicate ViewMatches(p: Primitives, rules: Rules, protocol: string, kind: Kind, body: seq<byte>, path: string,
                        claimed: Option<Value>) {
    var view := rules.view(protocol, kind, body, path);
    rules.present(protocol, kind, view) && claimed == Some(Str(p.sha256Hex(Hashed(Verifier, view))))
  }

  /** What `verifyFieldClaims` and the checks made of its result ask for. */
  predicate ClaimsOk(p: Primitives, rules: Rules, claims: Value, proof: Value, request: Option<seq<byte>>,
                     response: seq<byte>)
    requires WireOk(proof)
  {
    var protocol, path := AsStr(claims.Get(FAMILY)), ProofFields(p, proof).path;
    && protocol.Some? && rules.supported(protocol.value)
    && EnvelopeOk(p, rules, protocol.value, claims, proof)
    && ViewMatches(p, rules, protocol.value, Response, response, path, claims.Get(RESPONSE_HASH))
    && (request.Some? ==> ViewMatches(p, rules, protocol.value, Request, request.value, path, claims.Get(REQUEST_HASH)))
  }

  /** `verifyFieldClaims` and the checks made of its result; a thrown error is a refusal. */
  method VerifyFieldClaims(p: Primitives, rules: Rules, claims: Value, proof: Value, request: Option<seq<byte>>,
                           response: seq<byte>) returns (ok: bool)
    requires WireOk(proof)
    ensures ok <==> ClaimsOk(p, rules, claims, proof, request, response)
  {
    hide Hashed, WireOk, ExpectedClaims;
    var family := AsStr(claims.Get(FAMILY));
    if family.None? || !rules.supported(family.value) {
      return false;
    }
    var protocol := family.value;
    var path := ProofFields(p, proof).path;
    var expected := ExpectedClaims(p, rules, protocol, proof);
    for i := 0 to |expected|
      invariant forall j :: 0 <= j < i ==> claims.Get(expected[j].0) == Some(expected[j].1)
    {
      if claims.Get(expected[i].0) != Some(expected[i].1) {
        return false;
      }
    }
    var view := rules.view(protocol, Response, response, path);
    if !rules.present(protocol, Response, view) {
      return false;
    }
    var responseOk := claims.Get(RESPONSE_HASH) == Some(Str(p.sha256Hex(Hashed(Verifier, view))));
    var requestOk := true;
    if request.Some? {
      var requestView := rules.view(protocol, Request, request.value, path);
      if !rules.present(protocol, Request, requestView) {
        return false;
      }
      requestOk := claims.Get(REQUEST_HASH) == Some(Str(p.sha256Hex(Hashed(Verifier, requestView))));
    }
    ok := responseOk && requestOk;
  }

  /** An exchange is accepted: wire shape, signature, and the claims or else the digests. */
  predicate Accepted(p: Primitives, rules: Rules, proof: Value, request: Option<seq<byte>>, response: seq<byte>,
                     verifies: seq<byte> -> bool) {
    && WireOk(proof)
    && SignatureCheck(p, proof, response, verifies)
    && (FieldMode(proof) ==> ClaimsOk(p, rules, proof.Get("field_claims").value, proof, request, response))
    && (!FieldMode(proof) && request.Some? ==> p.sha256Hex(request.value) == ProofFields(p, proof).requestHex)
  }

  /** `verifyTeeExchange`; `others` are the evidence, profile, nonce and host checks. */
  method VerifyTeeExchange(p: Primitives, rules: Rules, proof: Value, request: Option<seq<byte>>, response: seq<byte>,
                           verifies: seq<byte> -> bool, others: seq<bool>)
    returns (ok: bool)
    ensures ok <==> Accepted(p, rules, proof, request, response, verifies) && forall i :: 0 <= i < |others| ==> others[i]
  {
    hide WireOk, ClaimsOk, ProofFields, SignatureCheck;
    var errors := VerifyWireEnvelope(proof);
    if errors != [] {
      return false;
    }
    ok := SignatureCheck(p, proof, response, verifies);
    for i := 0 to |others|
      invariant ok <==> SignatureCheck(p, proof, response, verifies) && forall j :: 0 <= j < i ==> others[j]
    {
      ok := ok && others[i];
    }
    var fieldMode := FieldMode(proof);
    if fieldMode {
      var fieldsOk := VerifyFieldClaims(p, rules, proof.Get("field_claims").value, proof, request, response);
      ok := ok && fieldsOk;
    }
    if request.Some? && !fieldMode {
      ok := ok && p.sha256Hex(request.value) == ProofFields(p, proof).requestHex;
    }
  }

  // ----- What acceptance means -----

  /** What the verifier's printer shows of a value. */
  function Seen(v: Value): Value {
    CanonicalJson.Shown(Verifier, v)
  }

  /**
   Against a genuine digest a view passes exactly when what is shown of it is the genuine view and both printers
   list its keys alike.
   */
  lemma MatchIff(p: Primitives, rules: Rules, protocol: string, kind: Kind, body: seq<byte>, path: string,
                 genuine: Value)
    requires CanonicalJson.WellFormed(genuine) && CanonicalJson.WellFormed(rules.view(protocol, kind, body, path))
    requires NoCollision(p, Hashed(Enclave, genuine), Hashed(Verifier, rules.view(protocol, kind, body, path)))
    ensures var view := rules.view(protocol, kind, body, path);
      ViewMatches(p, rules, protocol, kind, body, path, Some(Str(p.sha256Hex(Hashed(Enclave, genuine)))))
      <==> rules.present(protocol, kind, view) && Seen(view) == genuine && CanonicalJson.KeysAlike(genuine)
  {
    hide Hashed, CanonicalJson.Print, CanonicalJson.WellFormed, CanonicalJson.KeysAlike, CanonicalJson.Shown;
    SameHashedIff(genuine, rules.view(protocol, kind, body, path));
  }

  /** The hash tells apart what the enclave hashed for an exchange and what the verifier hashes. */
  ghost predicate NoCollisions(p: Primitives, rules: Rules, e: Exchange, f: Option<Folded>, proof: Value,
                               request: Option<seq<byte>>, response: seq<byte>)
    requires WireOk(proof)
  {
    (f.Some? && FieldMode(proof)) ==>
      var path := ProofFields(p, proof).path;
      && NoCollision(p, Hashed(Enclave, ClaimsFor(p, rules, e, f.value)), Hashed(Verifier, proof.Get("field_claims").value))
      && NoCollision(p, Hashed(Enclave, f.value.responseView), Hashed(Verifier, rules.view(f.value.protocol, Response, response, path)))
      && (request.Some? ==>
            NoCollision(p, Hashed(Enclave, f.value.requestView),
                        Hashed(Verifier, rules.view(f.value.protocol, Request, request.value, path))))
  }

  /** Every number in the values that are printed is a number. */
  ghost predicate Numbers(p: Primitives, rules: Rules, e: Exchange, f: Option<Folded>, proof: Value,
                          request: Option<seq<byte>>, response: seq<byte>)
    requires WireOk(proof)
  {
    && (FieldMode(proof) ==> CanonicalJson.WellFormed(proof.Get("field_claims").value))
    && (f.Some? ==>
          var path := ProofFields(p, proof).path;
          && CanonicalJson.WellFormed(f.value.responseView) && CanonicalJson.WellFormed(f.value.requestView)
          && CanonicalJson.WellFormed(rules.view(f.value.protocol, Response, response, path))
          && (request.Some? ==> CanonicalJson.WellFormed(rules.view(f.value.protocol, Request, request.value, path))))
  }

  /**
   The end-to-end promise of field mode: an accepted exchange is one the enclave signed, and what the verifier's
   printer shows of the received response - and of the sent request, if it was given - is the view the enclave
   folded. Entries that set a prototype are what it does not show.
   */
  lemma AcceptedViewIsGenuine(p: Primitives, rules: Rules, log: seq<Exchange>, folds: seq<Option<Folded>>, proof: Value,
                              request: Option<seq<byte>>, response: seq<byte>, verifies: seq<byte> -> bool) returns (i: nat)
    requires Sound(p) && OnlySigned(p, log, verifies) && |folds| == |log|
    requires Accepted(p, rules, proof, request, response, verifies) && FieldMode(proof)
    requires forall k :: 0 <= k < |log| ==> Signable(log[k]) && ClaimsAre(p, rules, log[k], folds[k])
    requires forall k :: 0 <= k < |log| ==> NoCollisions(p, rules, log[k], folds[k], proof, request, response)
    requires forall k :: 0 <= k < |log| ==> Numbers(p, rules, log[k], folds[k], proof, request, response)
    ensures i < |log| && SameView(p, SignedFields(p, log[i]), ProofFields(p, proof)) && folds[i].Some?
    ensures log[i].claims == Some(Seen(proof.Get("field_claims").value))
    ensures proof.Get("field_claims").value.Get(FAMILY) == Some(Str(folds[i].value.protocol))
    ensures var f, path := folds[i].value, ProofFields(p, proof).path;
      && Seen(rules.view(f.protocol, Response, response, path)) == f.responseView
      && (request.Some? ==> Seen(rules.view(f.protocol, Request, request.value, path)) == f.requestView)
  {
    hide Hashed, CanonicalJson.WellFormed, CanonicalJson.Shown, WireOk, ClaimsFor, SameView, ViewMatches, EnvelopeOk,
         ProofFields, SignedFields,
         Signable, StatementText;
    i := AcceptedWasSigned(p, log, proof, verifies);
    assert ClaimsAre(p, rules, log[i], folds[i]) && NoCollisions(p, rules, log[i], folds[i], proof, request, response)
        && Numbers(p, rules, log[i], folds[i], proof, request, response);
    GenuineViews(p, rules, log[i], folds[i], proof, request, response);
  }

  /** A text entry is shown as it is. */
  lemma SeenText(v: Value, key: string, s: string)
    requires v.Obj? && key != PROTO && Seen(v).Get(key) == Some(Str(s))
    ensures v.Get(key) == Some(Str(s))
  {
    assert Seen(v).fields[key] == Seen(v.fields[key]);
  }

  lemma GenuineViews(p: Primitives, rules: Rules, e: Exchange, fold: Option<Folded>, proof: Value,
                     request: Option<seq<byte>>, response: seq<byte>)
    requires WireOk(proof) && FieldMode(proof)
    requires ClaimsOk(p, rules, proof.Get("field_claims").value, proof, request, response)
    requires SameView(p, SignedFields(p, e), ProofFields(p, proof)) && e.claims.Some? && ClaimsAre(p, rules, e, fold)
    requires NoCollisions(p, rules, e, fold, proof, request, response)
    requires Numbers(p, rules, e, fold, proof, request, response)
    ensures fold.Some? && e.claims == Some(Seen(proof.Get("field_claims").value))
    ensures proof.Get("field_claims").value.Get(FAMILY) == Some(Str(fold.value.protocol))
    ensures var f, path := fold.value, ProofFields(p, proof).path;
      && Seen(rules.view(f.protocol, Response, response, path)) == f.responseView
      && (request.Some? ==> Seen(rules.view(f.protocol, Request, request.value, path)) == f.requestView)
  {
    var f, path := fold.value, ProofFields(p, proof).path;
    var claims := proof.Get("field_claims").value;
    assert claims.Obj?;
    hide Hashed, CanonicalJson.WellFormed, CanonicalJson.KeysAlike, CanonicalJson.Shown, WireOk, ClaimsFor, SameView,
         ViewMatches, EnvelopeOk,
         ProofFields, SignedFields;
    ClaimsAreNumbers(p, rules, e, f);
    AcceptedClaimsAreGenuine(p, e, proof);
    ContentOf(p, rules, e, f);
    NamesDiffer();
    SeenText(claims, FAMILY, f.protocol);
    SeenText(claims, REQUEST_HASH, p.sha256Hex(Hashed(Enclave, f.requestView)));
    SeenText(claims, RESPONSE_HASH, p.sha256Hex(Hashed(Enclave, f.responseView)));
    MatchIff(p, rules, f.protocol, Response, response, path, f.responseView);
    if request.Some? {
      MatchIff(p, rules, f.protocol, Request, request.value, path, f.requestView);
    }
  }

  lemma {:induction false} PairsAreNumbers(ps: seq<(string, Value)>)
    requires forall i :: 0 <= i < |ps| ==> CanonicalJson.WellFormed(ps[i].1)
    ensures forall k :: k in Pairs(ps) ==> CanonicalJson.WellFormed(Pairs(ps)[k])
    decreases |ps|
  {
    hide CanonicalJson.WellFormed;
    if ps != [] {
      PairsAreNumbers(ps[..|ps| - 1]);
    }
  }

  lemma ClaimsAreNumbers(p: Primitives, rules: Rules, e: Exchange, f: Folded)
    ensures CanonicalJson.WellFormed(ClaimsFor(p, rules, e, f))
  {
    hide Hashed, Pairs, PathNoQuery;
    PairsAreNumbers(SignedClaims(p, rules, f.protocol, e)
                    + [("v", Num(Int(1))), ("streaming", Bool(f.streaming))]);
  }

  // ----- OpenAI chat -----

  const CHAT := "openai.chat_completions"

  /** The verifier extracts chat views as modelled. */
  ghost predicate ReadsChat(rules: Rules, o: Oracle) {
    forall body, path ::
      rules.view(CHAT, Response, body, path)
          == TsFieldView(o, body) && rules.view(CHAT, Request, body, path) == TsRequestView(o, body)
  }

  /**
   What the enclave folds of a chat exchange: the view its collector returns for some way the body is cut, if both
   views are present.
   */
  function ChatFolded(rules: Rules, o: Oracle, request: seq<byte>, pieces: seq<seq<byte>>,
                      streaming: bool): Option<Folded> {
    var requestView := RequestView(o, request);
    var c := Collected(o, streaming, pieces);
    if c.None? || !rules.present(CHAT, Request, requestView) || !rules.present(CHAT, Response, c.value.0) then None
    else Some(Folded(CHAT, requestView, c.value.0, c.value.1))
  }

  ghost predicate FoldsChat(rules: Rules, o: Oracle, e: Exchange, f: Option<Folded>) {
    f.Some? && f.value.protocol == CHAT ==>
      exists pieces: seq<seq<byte>>, streaming ::
        Flatten(pieces) == e.responseBody && f == ChatFolded(rules, o, e.requestBody, pieces, streaming)
  }

  ghost predicate StreamedWithGap(o: Oracle, body: seq<byte>, view: Value) {
    exists cut: nat :: cut <= |body| && view == StreamView(o, WithoutGap(body, cut))
  }

  /**
   A streamed body is folded as events, which may miss the bytes between the capture limit and some cut; up to that
   limit nothing is missed.
   */
  lemma FoldedIs(rules: Rules, o: Oracle, e: Exchange, f: Folded)
    requires f.protocol == CHAT && FoldsChat(rules, o, e, Some(f))
    ensures f.requestView == RequestView(o, e.requestBody)
    ensures rules.present(CHAT, Request, f.requestView) && rules.present(CHAT, Response, f.responseView)
    ensures if f.streaming then StreamedWithGap(o, e.responseBody, f.responseView) else f.responseView == FieldView(o, e.responseBody)
    ensures IndicatesSse(e.responseBody) ==> f.streaming
    ensures |e.responseBody| <= MAX_FIELD_CLAIMS_CAPTURE && f.streaming ==> f.responseView == StreamView(o, e.responseBody)
    ensures |e.responseBody| <= MAX_FIELD_CLAIMS_CAPTURE && LooksLikeSse(e.responseBody) ==>
        f.responseView == FieldView(o, e.responseBody)
  {
    hide LooksLikeSse, View, EventFold, IndicatesSse, RequestView, BodyEvents;
    var pieces: seq<seq<byte>>, streaming :| Flatten(pieces)
        == e.responseBody && Some(f) == ChatFolded(rules, o, e.requestBody, pieces, streaming);
    TriggerIff(pieces);
    assert WithoutGap(e.responseBody, 0) == e.responseBody;
  }

  /** A response both readers and both aggregators treat alike. */
  predicate ReadsAlike(o: Oracle, body: seq<byte>) {
    SameReading(body) && CommonStream(EMPTY, Events(o, body)) && Gapless(o, body)
  }

  /**
   For chat: whatever the received octets are, what is shown of the verifier's view of them is the view the
   enclave's collector folded; and if both sides read the received body alike, the enclave itself would see no
   difference.
   */
  lemma AcceptedChatIsGenuine(p: Primitives, rules: Rules, o: Oracle, log: seq<Exchange>, folds: seq<Option<Folded>>,
                              proof: Value,
                              request: Option<seq<byte>>, response: seq<byte>, verifies: seq<byte> -> bool) returns (i: nat)
    requires Sound(p) && OnlySigned(p, log, verifies) && |folds| == |log| && ReadsChat(rules, o)
    requires Accepted(p, rules, proof, request, response, verifies) && FieldMode(proof)
    requires proof.Get("field_claims").value.Get(FAMILY) == Some(Str(CHAT))
    requires forall k :: 0 <= k < |log| ==> Signable(log[k]) && ClaimsAre(p, rules, log[k], folds[k])
    requires forall k :: 0 <= k < |log| ==> FoldsChat(rules, o, log[k], folds[k])
    requires forall k :: 0 <= k < |log| ==> NoCollisions(p, rules, log[k], folds[k], proof, request, response)
    requires forall k :: 0 <= k < |log| ==> Numbers(p, rules, log[k], folds[k], proof, request, response)
    ensures i < |log| && SameView(p, SignedFields(p, log[i]), ProofFields(p, proof))
    ensures folds[i].Some? && Seen(TsFieldView(o, response)) == folds[i].value.responseView
    ensures ReadsAlike(o, response) ==> Seen(FieldView(o, response)) == folds[i].value.responseView
    ensures |log[i].responseBody| <= MAX_FIELD_CLAIMS_CAPTURE ==>
              folds[i].value.responseView
                  == if folds[i].value.streaming then StreamView(o, log[i].responseBody) else FieldView(o, log[i].responseBody)
    ensures request.Some? ==> Seen(TsRequestView(o, request.value)) == RequestView(o, log[i].requestBody)
    ensures request.Some? && SameReading(request.value) ==>
        Seen(RequestView(o, request.value)) == RequestView(o, log[i].requestBody)
  {
    hide WireOk, ClaimsFor, SameView, ProofFields, SignedFields, Signable, StatementText, TsFieldView, FieldView,
         TsRequestView, RequestView,
         SameReading, CommonStream, Gapless, Events, Accepted, NoCollisions, Numbers, StreamView, WithoutGap, Seen;
    i := AcceptedViewIsGenuine(p, rules, log, folds, proof, request, response, verifies);
    assert ClaimsAre(p, rules, log[i], folds[i]) && FoldsChat(rules, o, log[i], folds[i]);
    FoldedIs(rules, o, log[i], folds[i].value);
    if ReadsAlike(o, response) {
      FieldViewsAgreeIff(o, response);
    }
    if request.Some? && SameReading(request.value) {
      RequestViewsAgree(o, request.value);
    }
  }

  // ----- An untouched exchange passes -----

  const NAMES: seq<string> := [
    "request_schema_version", "response_schema_version", "field_policy_id", "assurance_level", "cross_protocol",
    "semantic_equivalence_not_proven", "body_hash_policy", "request_body_sha256_severity", "response_body_sha256_severity",
    "nonce", "upstream_host", "upstream_path", "http_method", "http_status", "proof_type", "verification_mode", "v", "streaming"]

  const LENGTHS: seq<nat> := [22, 23, 15, 15, 14, 31, 16, 28, 29, 5, 13, 13, 11, 11, 10, 17, 1, 9]

  lemma NamesHaveLengths()
    ensures |NAMES| == |LENGTHS| && forall i :: 0 <= i < |NAMES| ==> |NAMES[i]| == LENGTHS[i]
    ensures NAMES[2][0] == 'f' && NAMES[3][0] == 'a' && NAMES[5][0] == 's'
    ensures NAMES[10][9] == 'h' && NAMES[11][9] == 'p' && NAMES[12][5] == 'm' && NAMES[13][5] == 's'
  {
  }

  lemma NamesAreDistinct()
    ensures forall i, j :: 0 <= i < j < |NAMES| ==> NAMES[i] != NAMES[j]
    ensures forall i :: 0 <= i < |NAMES| ==> NAMES[i] != FAMILY && NAMES[i] != REQUEST_HASH && NAMES[i] != RESPONSE_HASH
  {
    NamesHaveLengths();
    assert |FAMILY| == 15 && FAMILY[0] == 'p' && |REQUEST_HASH| == 30 && |RESPONSE_HASH| == 31 && RESPONSE_HASH[0] == 'u';
    LengthsRepeat();
    hide NAMES, LENGTHS, FAMILY, REQUEST_HASH, RESPONSE_HASH;
  }

  /** Only these lengths occur twice, and none is that of a digest claim. */
  lemma LengthsRepeat()
    ensures |LENGTHS| == 18
    ensures forall i, j :: 0 <= i < j < |LENGTHS| && LENGTHS[i] == LENGTHS[j] ==>
              (i == 2 && j == 3) || (i == 10 && j == 11) || (i == 12 && j == 13)
    ensures forall i :: 0 <= i < |LENGTHS| ==> LENGTHS[i] != 30 && (LENGTHS[i] == 31 ==> i == 5) && (LENGTHS[i] == 15 ==> i == 2 || i == 3)
  {
  }

  /**
   Case mapping is idempotent, leaves no lower-case ASCII letter in an upper-cased text and agrees with the ASCII
   mapping on ASCII.
   */
  ghost predicate CaseMapping(p: Primitives) {
    && (forall s :: p.lower(p.lower(s)) == p.lower(s)) && (forall s :: p.upper(p.upper(s)) == p.upper(s))
    && (forall s :: AsciiUpper(p.upper(s)) == p.upper(s))
    && (forall s: string :: (forall i :: 0 <= i < |s| ==> s[i] as int < 0x80) ==> p.lower(s) == AsciiLower(s))
  }

  /** There is such a case mapping. */
  lemma CaseMappingExists() returns (p: Primitives)
    ensures CaseMapping(p) && p.lower("\U{C9}") == "\U{C9}"
  {
    p := Primitives(AsciiLower, AsciiUpper, _ => "");
    forall s
      ensures AsciiLower(AsciiLower(s)) == AsciiLower(s) && AsciiUpper(AsciiUpper(s)) == AsciiUpper(s)
    {
      assert |AsciiLower(AsciiLower(s))| == |s| && |AsciiUpper(AsciiUpper(s))| == |s|;
    }
    assert p.lower("\U{C9}") == AsciiLower("\U{C9}");
    assert AsciiLower("\U{C9}")[0] == '\U{C9}';
  }

  /** Every common claim is found under its name. */
  lemma SignedClaimsFound(p: Primitives, rules: Rules, e: Exchange, f: Folded)
    ensures var signed := SignedClaims(p, rules, f.protocol, e);
      forall i :: 0 <= i < |signed| ==> ClaimsFor(p, rules, e, f).Get(signed[i].0) == Some(signed[i].1)
  {
    hide Hashed, Pairs, PathNoQuery, AsciiLower, AsciiUpper;
    var signed := SignedClaims(p, rules, f.protocol, e);
    var ps := signed + [("v", Num(Int(1))), ("streaming", Bool(f.streaming))];
    assert |ps| == |NAMES| && forall i :: 0 <= i < |ps| ==> ps[i].0 == NAMES[i];
    NamesAreDistinct();
    hide NAMES, FAMILY, REQUEST_HASH, RESPONSE_HASH, SignedClaims;
    forall i | 0 <= i < |signed|
      ensures ClaimsFor(p, rules, e, f).Get(signed[i].0) == Some(signed[i].1)
    {
      assert signed[i] == ps[i];
      PairsLookup(ps, i);
    }
  }

  lemma SharedButHost(rules: Rules, protocol: string, nonce: string, host: string, other: string, path: string,
                      path': string, verb: string, status: int)
    requires PathNoQuery(path) == PathNoQuery(path')
    ensures var a := SharedClaims(rules, protocol, nonce, host, path, verb, status);
      var b := SharedClaims(rules, protocol, nonce, other, path', verb, status);
      && |a| == |b| == 16
      && (forall i :: 0 <= i < 16 ==> a[i].0 == b[i].0 && (i != 10 ==> a[i].1 == b[i].1))
      && a[10].1 == Str(host) && b[10].1 == Str(other)
  {
    hide PathNoQuery;
  }

  /** The common claims, told one by one. */
  predicate Declared(c: Value, rules: Rules, protocol: string, nonce: string, host: string, path: string, verb: string,
                     status: int)
  {
    && c.Get("request_schema_version") == Some(Str(protocol + ".v1"))
    && c.Get("response_schema_version") == Some(Str(protocol + ".v1"))
    && c.Get("field_policy_id") == Some(Str(rules.policyId(protocol)))
    && c.Get("assurance_level") == Some(Str("strong"))
    && c.Get("cross_protocol") == Some(Bool(false))
    && c.Get("semantic_equivalence_not_proven") == Some(Bool(false))
    && c.Get("body_hash_policy") == Some(Str("advisory"))
    && c.Get("request_body_sha256_severity") == Some(Str("advisory"))
    && c.Get("response_body_sha256_severity") == Some(Str("advisory"))
    && c.Get("nonce") == Some(Str(nonce))
    && c.Get("upstream_host") == Some(Str(host))
    && c.Get("upstream_path") == Some(Str(PathNoQuery(path)))
    && c.Get("http_method") == Some(Str(verb))
    && c.Get("http_status") == Some(Num(Int(status)))
    && c.Get("proof_type") == Some(Str("field-proof"))
    && c.Get("verification_mode") == Some(Str("field_claims"))
  }

  lemma SharedFirst(rules: Rules, protocol: string, nonce: string, host: string, path: string, verb: string,
                    status: int)
    ensures var x := SharedClaims(rules, protocol, nonce, host, path, verb, status);
      && |x| == 16
      && x[0] == ("request_schema_version", Str(protocol + ".v1"))
      && x[1] == ("response_schema_version", Str(protocol + ".v1"))
      && x[2] == ("field_policy_id", Str(rules.policyId(protocol)))
      && x[3] == ("assurance_level", Str("strong"))
      && x[4] == ("cross_protocol", Bool(false))
      && x[5] == ("semantic_equivalence_not_proven", Bool(false))
      && x[6] == ("body_hash_policy", Str("advisory"))
      && x[7] == ("request_body_sha256_severity", Str("advisory"))
  {
    hide PathNoQuery;
  }

  lemma SharedLast(rules: Rules, protocol: string, nonce: string, host: string, path: string, verb: string, status: int)
    ensures var x := SharedClaims(rules, protocol, nonce, host, path, verb, status);
      && |x| == 16
      && x[8] == ("response_body_sha256_severity", Str("advisory"))
      && x[9] == ("nonce", Str(nonce))
      && x[10] == ("upstream_host", Str(host))
      && x[11] == ("upstream_path", Str(PathNoQuery(path)))
      && x[12] == ("http_method", Str(verb))
      && x[13] == ("http_status", Num(Int(status)))
      && x[14] == ("proof_type", Str("field-proof"))
      && x[15] == ("verification_mode", Str("field_claims"))
  {
    hide PathNoQuery;
  }

  predicate One(claims: Value, x: (string, Value)) {
    claims.Get(x.0) == Some(x.1)
  }

  predicate AllOf(claims: Value, x: seq<(string, Value)>) {
    forall i :: 0 <= i < |x| ==> One(claims, x[i])
  }

  lemma AllOfIs(c: Value, x: seq<(string, Value)>)
    ensures AllOf(c, x) <==> forall i :: 0 <= i < |x| ==> c.Get(x[i].0) == Some(x[i].1)
  {
    if forall i :: 0 <= i < |x| ==> c.Get(x[i].0) == Some(x[i].1) {
      forall i | 0 <= i < |x|
        ensures One(c, x[i])
      {
      }
    }
    if AllOf(c, x) {
      forall i | 0 <= i < |x|
        ensures c.Get(x[i].0) == Some(x[i].1)
      {
        assert One(c, x[i]);
      }
    }
  }

  lemma OneByOne(c: Value, x: seq<(string, Value)>)
    requires |x| == 16
    ensures AllOf(c, x) <==>
      && One(c, x[0]) && One(c, x[1]) && One(c, x[2]) && One(c, x[3]) && One(c, x[4]) && One(c, x[5]) && One(c, x[6]) && One(c, x[7])
      && One(c, x[8]) && One(c, x[9]) && One(c, x[10]) && One(c, x[11]) && One(c, x[12]) && One(c, x[13]) && One(c, x[14])
      && One(c, x[15])
  {
    hide One;
  }

  lemma SharedIs(c: Value, rules: Rules, protocol: string, nonce: string, host: string, path: string, verb: string,
                 status: int)
    ensures AllOf(c, SharedClaims(rules, protocol, nonce, host, path, verb, status)) <==>
      Declared(c, rules, protocol, nonce, host, path, verb, status)
  {
    hide PathNoQuery, SharedClaims, AllOf;
    SharedFirst(rules, protocol, nonce, host, path, verb, status);
    SharedLast(rules, protocol, nonce, host, path, verb, status);
    OneByOne(c, SharedClaims(rules, protocol, nonce, host, path, verb, status));
  }

  /** The claims the enclave makes. */
  lemma ClaimsAreDeclared(p: Primitives, rules: Rules, e: Exchange, f: Folded)
    ensures Declared(ClaimsFor(p, rules, e, f), rules, f.protocol, e.nonce, AsciiLower(e.host), e.path,
                     AsciiUpper(p.upper(e.verb)), e.status)
  {
    hide Declared, ClaimsFor, SharedClaims, AsciiLower, AsciiUpper;
    SignedClaimsFound(p, rules, e, f);
    AllOfIs(ClaimsFor(p, rules, e, f), SignedClaims(p, rules, f.protocol, e));
    SharedIs(ClaimsFor(p, rules, e, f), rules, f.protocol, e.nonce, AsciiLower(e.host), e.path, AsciiUpper(p.upper(e.verb)), e.status);
  }

  /** And the rest of them. */
  lemma OwnClaimsAreDeclared(p: Primitives, rules: Rules, e: Exchange, f: Folded)
    ensures var c := ClaimsFor(p, rules, e, f);
      && c.Get("v") == Some(Num(Int(1))) && c.Get("streaming") == Some(Bool(f.streaming))
      && c.Get("protocol_family") == Some(Str(f.protocol))
      && c.Get("upstream_request_fields_sha256") == Some(Str(p.sha256Hex(Hashed(Enclave, f.requestView))))
      && c.Get("upstream_response_fields_sha256") == Some(Str(p.sha256Hex(Hashed(Enclave, f.responseView))))
  {
    hide Hashed, Pairs, PathNoQuery, AsciiLower, AsciiUpper;
    ContentOf(p, rules, e, f);
    var ps := SignedClaims(p, rules, f.protocol, e) + [("v", Num(Int(1))), ("streaming", Bool(f.streaming))];
    ClaimNames(p, rules, e, f);
    NamesAreDistinct();
    assert |SignedClaims(p, rules, f.protocol, e)| == 16;
    hide NAMES, SignedClaims;
    PairsLookup(ps, 16);
    PairsLookup(ps, 17);
  }

  /** What the verifier asks of the common claims. */
  lemma EnvelopeIsDeclared(p: Primitives, rules: Rules, protocol: string, claims: Value, proof: Value)
    requires WireOk(proof)
    ensures var f := ProofFields(p, proof);
      EnvelopeOk(p, rules, protocol, claims, proof) <==>
        Declared(claims, rules, protocol, f.nonce, p.lower(f.host), f.path, p.upper(f.verb), f.status)
  {
    hide WireOk, ProofFields, Declared, SharedClaims;
    var f := ProofFields(p, proof);
    AllOfIs(claims, ExpectedClaims(p, rules, protocol, proof));
    SharedIs(claims, rules, protocol, f.nonce, p.lower(f.host), f.path, p.upper(f.verb), f.status);
  }

  /** They are the expected ones but for the host. */
  lemma OnlyTheHostDiffers(p: Primitives, rules: Rules, protocol: string, e: Exchange, proof: Value)
    requires WireOk(proof) && SameView(p, SignedFields(p, e), ProofFields(p, proof)) && CaseMapping(p)
    ensures var signed, expected := SignedClaims(p, rules, protocol, e), ExpectedClaims(p, rules, protocol, proof);
      && |signed| == |expected| == 16
      && (forall i :: 0 <= i < 16 ==> signed[i].0 == expected[i].0 && (i != 10 ==> signed[i].1 == expected[i].1))
      && signed[10].1 == Str(AsciiLower(e.host)) && expected[10].1 == Str(p.lower(e.host))
  {
    hide WireOk, PathNoQuery, Acceptance.Text, ClaimsHex, AsciiLower, AsciiUpper, SharedClaims, ProofFields;
    var f := ProofFields(p, proof);
    PathTwice(e.path);
    assert f.nonce == e.nonce && f.status == e.status;
    assert p.lower(f.host) == p.lower(e.host) && p.upper(f.verb) == p.upper(e.verb);
    assert PathNoQuery(f.path) == PathNoQuery(e.path);
    assert AsciiUpper(p.upper(e.verb)) == p.upper(f.verb);
    SharedButHost(rules, protocol, e.nonce, AsciiLower(e.host), p.lower(e.host), e.path, f.path, p.upper(f.verb), e.status);
  }

  /**
   The claims of an exchange meet every expectation taken from a proof with the same view exactly when the two
   ways of lower-casing the host agree, as they do on ASCII hosts.
   */
  lemma EnvelopeOfGenuineIff(p: Primitives, rules: Rules, e: Exchange, f: Folded, proof: Value)
    requires WireOk(proof) && SameView(p, SignedFields(p, e), ProofFields(p, proof)) && CaseMapping(p)
    ensures EnvelopeOk(p, rules, f.protocol, ClaimsFor(p, rules, e, f), proof) <==> AsciiLower(e.host) == p.lower(e.host)
  {
    hide WireOk, SameView, CaseMapping, SignedClaims, ExpectedClaims, ClaimsFor, SignedFields, ProofFields, AsciiLower;
    SignedClaimsFound(p, rules, e, f);
    OnlyTheHostDiffers(p, rules, f.protocol, e, proof);
  }

  /** The ASCII mapping touches letters of ASCII only, leaves no capital among them and keeps every letter. */
  lemma AsciiCase(s: string, i: nat)
    requires i < |s|
    ensures |AsciiLower(s)| == |AsciiUpper(s)| == |s|
    ensures !('A' <= AsciiLower(s)[i] <= 'Z') && !('a' <= AsciiUpper(s)[i] <= 'z')
    ensures !('A' <= s[i] <= 'Z') && !('a' <= s[i] <= 'z') ==> AsciiLower(s)[i] == s[i] == AsciiUpper(s)[i]
    ensures AsciiUpper(AsciiLower(s))[i] == AsciiUpper(s)[i] && AsciiLower(AsciiUpper(s))[i] == AsciiLower(s)[i]
  {
  }

  /** A host with a capital letter beyond ASCII is refused although nothing was altered. */
  lemma CapitalBeyondAscii(p: Primitives)
    requires p.lower("\U{C9}") == "\U{E9}"
    ensures AsciiLower("\U{C9}") != p.lower("\U{C9}")
  {
    assert AsciiLower("\U{C9}")[0] == '\U{C9}';
  }

  /**
   The signed claims of a chat exchange pass against the bodies the enclave received exactly when the host is
   lower-cased alike and, for each body checked, the verifier's view is present, what is shown of it is the
   folded view, and both printers list the keys of that alike.
   */
  lemma UntouchedChatPassesIff(p: Primitives, rules: Rules, o: Oracle, e: Exchange, f: Folded, proof: Value,
                               request: Option<seq<byte>>)
    requires WireOk(proof) && SameView(p, SignedFields(p, e), ProofFields(p, proof)) && CaseMapping(p)
    requires ReadsChat(rules, o)
    requires proof.Get("field_claims") == Some(ClaimsFor(p, rules, e, f)) && f.protocol == CHAT && rules.supported(CHAT)
    requires request == None || request == Some(e.requestBody)
    requires NoCollisions(p, rules, e, Some(f), proof, request, e.responseBody)
    requires Numbers(p, rules, e, Some(f), proof, request, e.responseBody)
    ensures ClaimsOk(p, rules, proof.Get("field_claims").value, proof, request, e.responseBody)
      <==> && AsciiLower(e.host) == p.lower(e.host)
           && Passes(rules, Response, TsFieldView(o, e.responseBody), f.responseView)
           && (request.Some? ==> Passes(rules, Request, TsRequestView(o, e.requestBody), f.requestView))
  {
    hide WireOk, ClaimsFor, SameView, ProofFields, SignedFields, TsFieldView, TsRequestView, EnvelopeOk, ViewMatches,
         Hashed,
         CanonicalJson.WellFormed, CanonicalJson.KeysAlike, Seen, AsciiLower, CaseMapping;
    ContentOf(p, rules, e, f);
    EnvelopeOfGenuineIff(p, rules, e, f, proof);
    var path := ProofFields(p, proof).path;
    assert FieldMode(proof);
    MatchIff(p, rules, CHAT, Response, e.responseBody, path, f.responseView);
    if request.Some? {
      MatchIff(p, rules, CHAT, Request, e.requestBody, path, f.requestView);
    }
  }

  predicate Passes(rules: Rules, kind: Kind, view: Value, genuine: Value) {
    rules.present(CHAT, kind, view) && Seen(view) == genuine && CanonicalJson.KeysAlike(genuine)
  }

  /** A genuine response with an entry that sets a prototype, at any depth of its view, raises a false alarm. */
  lemma ProtoRaisesAlarm(p: Primitives, rules: Rules, o: Oracle, e: Exchange, f: Folded, proof: Value)
    requires WireOk(proof) && SameView(p, SignedFields(p, e), ProofFields(p, proof)) && CaseMapping(p)
    requires ReadsChat(rules, o)
    requires proof.Get("field_claims") == Some(ClaimsFor(p, rules, e, f)) && f.protocol == CHAT && rules.supported(CHAT)
    requires NoCollisions(p, rules, e, Some(f), proof, None, e.responseBody)
    requires Numbers(p, rules, e, Some(f), proof, None, e.responseBody)
    requires !CanonicalJson.NoProto(f.responseView)
    ensures !ClaimsOk(p, rules, proof.Get("field_claims").value, proof, None, e.responseBody)
  {
    hide WireOk, ClaimsFor, SameView, ProofFields, SignedFields, TsFieldView, ClaimsOk, NoCollisions,
         CanonicalJson.KeysAlike,
         CanonicalJson.NoProto, CanonicalJson.WellFormed, CanonicalJson.Shown, CanonicalJson.Print, AsciiLower, CaseMapping;
    UntouchedChatPassesIff(p, rules, o, e, f, proof, None);
    CanonicalJson.ProtoIsLost(f.responseView);
  }

  /** So does a streamed response whose events start behind a long comment. */
  lemma LateEventsRaiseAlarm(p: Primitives, rules: Rules, o: Oracle, e: Exchange, f: Folded, proof: Value, n: nat,
                             data: string, content: string)
    requires WireOk(proof) && SameView(p, SignedFields(p, e), ProofFields(p, proof)) && CaseMapping(p)
    requires ReadsChat(rules, o)
    requires proof.Get("field_claims") == Some(ClaimsFor(p, rules, e, f)) && f.protocol == CHAT && rules.supported(CHAT)
    requires NoCollisions(p, rules, e, Some(f), proof, None, e.responseBody)
    requires Numbers(p, rules, e, Some(f), proof, None, e.responseBody)
    requires e.responseBody == LateBody(n, data) && |e.responseBody| <= MAX_FIELD_CLAIMS_CAPTURE
    requires FoldsChat(rules, o, e, Some(f))
    requires n >= 511 && '\n' !in data && TrimStart(data) == data && Trim(data) != "" && Trim(data) != "[DONE]"
    requires o.parseJson(data) == Some(Delta(content)) && o.parseJson(JsTrim(Utf8.Lossy(e.responseBody))) == None
    ensures !ClaimsOk(p, rules, proof.Get("field_claims").value, proof, None, e.responseBody)
  {
    hide WireOk, ClaimsFor, SameView, ProofFields, SignedFields, TsFieldView, ClaimsOk, NoCollisions, Numbers,
         CanonicalJson.KeysAlike,
         AsciiLower, CaseMapping, Utf8.Lossy, JsTrim, Trim, TrimStart, LateBody, IndicatesSse, StreamView, FoldsChat,
         Delta, Passes, Seen;
    FoldedIs(rules, o, e, f);
    LateEventsDiffer(o, n, data, content);
    EmptyFails(rules, f.responseView);
    UntouchedChatPassesIff(p, rules, o, e, f, proof, None);
  }

  /** An empty view is not one with choices. */
  lemma EmptyFails(rules: Rules, genuine: Value)
    requires genuine.Get("choices").Some?
    ensures !Passes(rules, Response, Obj(map[]), genuine)
  {
    hide CanonicalJson.KeysAlike;
  }

  /**
   No false alarm: where both sides read the bodies alike, and a streamed one also looks like events from its
   start and fits the capture limit, an untouched exchange passes exactly when the host is lower-cased alike and
   both printers list the keys of the two views alike.
   */
  lemma UntouchedChatPasses(p: Primitives, rules: Rules, o: Oracle, e: Exchange, f: Folded, proof: Value)
    requires WireOk(proof) && SameView(p, SignedFields(p, e), ProofFields(p, proof)) && CaseMapping(p)
    requires ReadsChat(rules, o)
    requires proof.Get("field_claims") == Some(ClaimsFor(p, rules, e, f)) && f.protocol == CHAT && rules.supported(CHAT)
    requires FoldsChat(rules, o, e, Some(f)) && ReadsAlike(o, e.responseBody) && SameReading(e.requestBody)
    requires f.streaming ==> LooksLikeSse(e.responseBody) && |e.responseBody| <= MAX_FIELD_CLAIMS_CAPTURE
    requires NoCollisions(p, rules, e, Some(f), proof, Some(e.requestBody), e.responseBody)
    requires Numbers(p, rules, e, Some(f), proof, Some(e.requestBody), e.responseBody)
    ensures ClaimsOk(p, rules, proof.Get("field_claims").value, proof, Some(e.requestBody), e.responseBody)
      <==> AsciiLower(e.host) == p.lower(e.host) && CanonicalJson.KeysAlike(f.responseView) && CanonicalJson.KeysAlike(f.requestView)
  {
    hide WireOk, ClaimsFor, SameView, ProofFields, SignedFields, TsFieldView, FieldView, TsRequestView, RequestView,
         SameReading, CommonStream,
         Gapless, Events, EnvelopeOk, ClaimsOk, StreamView, WithoutGap, LooksLikeSse, NoCollisions, Numbers, CanonicalJson.KeysAlike,
         CanonicalJson.Shown, AsciiLower, CaseMapping;
    FoldedIs(rules, o, e, f);
    FieldViewsAgreeIff(o, e.responseBody);
    RequestViewsAgree(o, e.requestBody);
    UntouchedChatPassesIff(p, rules, o, e, f, proof, Some(e.requestBody));
    if CanonicalJson.KeysAlike(f.responseView) {
      CanonicalJson.AlikeIsShown(f.responseView);
    }
    if CanonicalJson.KeysAlike(f.requestView) {
      CanonicalJson.AlikeIsShown(f.requestView);
    }
  }

  // ----- A genuine proof is accepted -----

  /** A key that starts with a small letter and is ASCII throughout. */
  predicate Lettered(k: string) {
    k != "" && 'a' <= k[0] <= 'z' && forall i :: 0 <= i < |k| ==> k[i] as int < 0x80
  }

  lemma LetteredIsOrdinary(k: string)
    requires Lettered(k)
    ensures Ordinary(k)
  {
    assert PROTO[0] == '_';
  }

  lemma LetteredSchemas()
    ensures Lettered("request_schema_version")
    ensures Lettered("response_schema_version")
    ensures Lettered("field_policy_id")
  {
  }

  lemma LetteredLevels()
    ensures Lettered("assurance_level")
    ensures Lettered("cross_protocol")
    ensures Lettered("semantic_equivalence_not_proven")
  {
  }

  lemma LetteredPolicies()
    ensures Lettered("body_hash_policy")
    ensures Lettered("request_body_sha256_severity")
    ensures Lettered("response_body_sha256_severity")
  {
  }

  lemma LetteredFacts()
    ensures Lettered("nonce")
    ensures Lettered("upstream_host")
    ensures Lettered("upstream_path")
    ensures Lettered("http_method")
    ensures Lettered("http_status")
    ensures Lettered("proof_type")
    ensures Lettered("verification_mode")
    ensures Lettered("v")
    ensures Lettered("streaming")
  {
  }

  lemma LetteredDigests()
    ensures Lettered(FAMILY) && Lettered(REQUEST_HASH) && Lettered(RESPONSE_HASH)
  {
  }

  lemma NamesAreLettered()
    ensures forall i :: 0 <= i < |NAMES| ==> Lettered(NAMES[i])
    ensures Lettered(FAMILY) && Lettered(REQUEST_HASH) && Lettered(RESPONSE_HASH)
  {
    hide Lettered;
    LetteredSchemas();
    LetteredLevels();
    LetteredPolicies();
    LetteredFacts();
    LetteredDigests();
  }

  /** No claim is an array or an object. */
  predicate Scalar(v: Value) {
    !v.Arr? && !v.Obj?
  }

  lemma {:induction false} PairsAreScalar(ps: seq<(string, Value)>)
    requires forall i :: 0 <= i < |ps| ==> Scalar(ps[i].1) && Lettered(ps[i].0)
    ensures forall k :: k in Pairs(ps) ==> Scalar(Pairs(ps)[k]) && Lettered(k)
    decreases |ps|
  {
    hide Scalar, Lettered;
    if ps != [] {
      PairsAreScalar(ps[..|ps| - 1]);
    }
  }

  lemma ClaimsAreScalar(p: Primitives, rules: Rules, e: Exchange, f: Folded)
    ensures var ps := SignedClaims(p, rules, f.protocol, e) + [("v", Num(Int(1))), ("streaming", Bool(f.streaming))];
      forall i :: 0 <= i < |ps| ==> Scalar(ps[i].1) && Lettered(ps[i].0)
  {
    hide PathNoQuery, AsciiLower, AsciiUpper, Lettered;
    ClaimNames(p, rules, e, f);
    var ps := SignedClaims(p, rules, f.protocol, e) + [("v", Num(Int(1))), ("streaming", Bool(f.streaming))];
    assert forall i :: 0 <= i < |ps| ==> Scalar(ps[i].1);
    hide NAMES, SignedClaims;
    NamesAreLettered();
  }

  lemma ClaimNames(p: Primitives, rules: Rules, e: Exchange, f: Folded)
    ensures var ps := SignedClaims(p, rules, f.protocol, e) + [("v", Num(Int(1))), ("streaming", Bool(f.streaming))];
      |ps| == |NAMES| == 18 && forall i :: 0 <= i < |ps| ==> ps[i].0 == NAMES[i]
  {
    hide PathNoQuery, AsciiLower, AsciiUpper;
  }

  /** Both printers list the claims of the enclave alike. */
  lemma ClaimsKeysAlike(p: Primitives, rules: Rules, e: Exchange, f: Folded)
    ensures CanonicalJson.KeysAlike(ClaimsFor(p, rules, e, f))
  {
    hide Hashed, SignedClaims, Pairs, Lettered, Ordinary, FAMILY, REQUEST_HASH, RESPONSE_HASH;
    var ps := SignedClaims(p, rules, f.protocol, e) + [("v", Num(Int(1))), ("streaming", Bool(f.streaming))];
    ClaimsAreScalar(p, rules, e, f);
    LetteredDigests();
    PairsAreScalar(ps);
    var c := ClaimsFor(p, rules, e, f);
    forall k | k in c.fields
      ensures Ordinary(k) && Scalar(c.fields[k])
    {
      LetteredIsOrdinary(k);
    }
    CanonicalJson.OrdinaryKeysAlike(c);
  }

  /** Without claims the proof the enclave writes is accepted with the bodies of its exchange. */
  lemma GenuineIsAccepted(p: Primitives, rules: Rules, e: Exchange, v: GenuineProof.Evidence,
                          request: Option<seq<byte>>,
                          verifies: seq<byte> -> bool)
    requires WireOk(GenuineProof.Trailer(p, e, v)) && verifies(Utf8.Encode(StatementText(p, SignedFields(p, e))))
    requires e.claims == None && (request == None || request == Some(e.requestBody))
    ensures Accepted(p, rules, GenuineProof.Trailer(p, e, v), request, e.responseBody, verifies)
  {
    hide WireOk, ProofFields, StatementText, SignatureCheck, GenuineProof.Trailer;
    GenuineProof.GenuineProofPasses(p, e, v, verifies);
    GenuineProof.TrailerHas(p, e, v, "");
    assert ProofFields(p, GenuineProof.Trailer(p, e, v)).requestHex == p.sha256Hex(e.requestBody);
  }

  /**
   With the claims of a chat exchange it is accepted exactly when the host is lower-cased alike and both views pass.
   */
  lemma GenuineChatIsAcceptedIff(p: Primitives, rules: Rules, o: Oracle, e: Exchange, f: Folded,
                                 v: GenuineProof.Evidence,
                                 request: Option<seq<byte>>, verifies: seq<byte> -> bool)
    requires WireOk(GenuineProof.Trailer(p, e, v)) && verifies(Utf8.Encode(StatementText(p, SignedFields(p, e))))
    requires CaseMapping(p) && ReadsChat(rules, o)
    requires e.claims == Some(ClaimsFor(p, rules, e, f)) && f.protocol == CHAT && rules.supported(CHAT)
    requires request == None || request == Some(e.requestBody)
    requires NoCollisions(p, rules, e, Some(f), GenuineProof.Trailer(p, e, v), request, e.responseBody)
    requires Numbers(p, rules, e, Some(f), GenuineProof.Trailer(p, e, v), request, e.responseBody)
    ensures Accepted(p, rules, GenuineProof.Trailer(p, e, v), request, e.responseBody, verifies)
      <==> && AsciiLower(e.host) == p.lower(e.host)
           && Passes(rules, Response, TsFieldView(o, e.responseBody), f.responseView)
           && (request.Some? ==> Passes(rules, Request, TsRequestView(o, e.requestBody), f.requestView))
  {
    hide WireOk, ProofFields, SignedFields, StatementText, SignatureCheck, ClaimsFor, ClaimsOk, NoCollisions, Numbers,
         Passes, AsciiLower,
         CaseMapping, TsFieldView, TsRequestView, GenuineProof.Trailer, CanonicalJson.KeysAlike;
    ClaimsKeysAlike(p, rules, e, f);
    GenuineProof.GenuineProofPasses(p, e, v, verifies);
    GenuineProof.TrailerHas(p, e, v, "");
    UntouchedChatPassesIff(p, rules, o, e, f, GenuineProof.Trailer(p, e, v), request);
  }
}
