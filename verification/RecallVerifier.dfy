/** Verification of one recall envelope: authenticate, bind to the request, check the time, consume.

    JSON parsing, the schema checks of the envelope contract, SHA-256, the signing bytes and the
    Ed25519 check are parameters of the model. */
module RecallVerifier {
  import opened Encoding
  import opened Options
  import opened ReplayProtocol
  import opened ReplayNamespace
  import DB = ReplayDatabase

  const MAX_I64: int := 0x7FFF_FFFF_FFFF_FFFF
  const SIGNATURE_BYTES: nat := 64

  datatype Payload = Payload(
    nonce: string,
    issuedAt: int,
    expiresAt: int,
    tenantId: Bytes,
    workspaceId: Option<Bytes>,
    agentId: Bytes,
    sessionId: Option<Bytes>,
    missionId: Option<Bytes>,
    runId: Bytes,
    requestId: Bytes,
    queryDigest: Bytes,
    content: Bytes)

  datatype Envelope = Envelope(payload: Payload, keyId: string, signature: string)

  /** What Nexus expected when it made the request; the query is kept raw. */
  datatype Expected = Expected(
    tenantId: Bytes,
    workspaceId: Option<Bytes>,
    agentId: Bytes,
    sessionId: Option<Bytes>,
    missionId: Option<Bytes>,
    runId: Bytes,
    requestId: Bytes,
    query: Bytes)

  datatype ContextField =
    TenantId | WorkspaceId | AgentId | SessionId | MissionId | RunId | RequestId | QueryDigest

  datatype Error =
    | ParseFailed
    | InvalidEnvelope
    | UnknownSigningKey
    | InvalidSignatureEncoding
    | InvalidSignature
    | ContextMismatch(field: ContextField)
    | InvalidClock
    | Expired
    | IssuedTooFarInFuture
    | AlreadyConsumed
    | StoreFailed(cause: DB.StoreError)

  datatype Outcome = Accepted(envelope: Envelope, verifiedAt: int, ns: Bytes) | Rejected(error: Error)

  /** Everything the verifier calls that is not modelled here. */
  datatype Externals = Externals(
    parse: string -> Option<Envelope>,
    wellFormed: Envelope -> bool,
    signingBytes: Payload -> Option<Bytes>,
    signed: (Bytes, Bytes, Bytes) -> bool,
    sha256: Sha256)

  /** A key trusted by local configuration; the fingerprint is the digest of the public key. */
  datatype TrustedKey = TrustedKey(publicKey: Bytes)

  type Bundle = map<string, TrustedKey>

  function Fingerprint(x: Externals, key: TrustedKey): Bytes {
    x.sha256(key.publicKey)
  }

  /** The claim an envelope makes on the store, under the key that signed it. */
  function ClaimOf(x: Externals, p: Payload, key: TrustedKey): Claim {
    Claim(RowKey(x.sha256(NamespaceInput(Fingerprint(x, key), p.tenantId, p.workspaceId)), p.nonce), p.expiresAt)
  }

  function SaturatingAdd(a: int, b: int): int {
    if a + b > MAX_I64 then MAX_I64 else a + b
  }

  function SignatureError(x: Externals, e: Envelope, key: TrustedKey): Option<Error> {
    if |e.signature| != 2 * SIGNATURE_BYTES || !IsHex(e.signature) then Some(InvalidSignatureEncoding)
    else match x.signingBytes(e.payload)
         case None => Some(InvalidEnvelope)
         case Some(message) =>
           if x.signed(key.publicKey, message, Unhex(e.signature)) then None else Some(InvalidSignature)
  }

  /** The first component of the payload that differs from the request. */
  function ContextError(x: Externals, p: Payload, expected: Expected): Option<Error> {
    if p.tenantId != expected.tenantId then Some(ContextMismatch(TenantId))
    else if p.workspaceId != expected.workspaceId then Some(ContextMismatch(WorkspaceId))
    else if p.agentId != expected.agentId then Some(ContextMismatch(AgentId))
    else if p.sessionId != expected.sessionId then Some(ContextMismatch(SessionId))
    else if p.missionId != expected.missionId then Some(ContextMismatch(MissionId))
    else if p.runId != expected.runId then Some(ContextMismatch(RunId))
    else if p.requestId != expected.requestId then Some(ContextMismatch(RequestId))
    else if p.queryDigest != x.sha256(expected.query) then Some(ContextMismatch(QueryDigest))
    else None
  }

  function TimeError(p: Payload, now: int, maxFutureSkew: nat): Option<Error> {
    if now < 0 then Some(InvalidClock)
    else if now >= p.expiresAt then Some(Expired)
    else if p.issuedAt > SaturatingAdd(now, maxFutureSkew) then Some(IssuedTooFarInFuture)
    else None
  }

  /** The first check that an envelope fails, in the order of the checks. */
  function FirstError(x: Externals, bundle: Bundle, e: Envelope, expected: Expected, now: int, skew: nat)
    : Option<Error>
  {
    if !x.wellFormed(e) then Some(InvalidEnvelope)
    else if e.keyId !in bundle then Some(UnknownSigningKey)
    else if SignatureError(x, e, bundle[e.keyId]).Some? then SignatureError(x, e, bundle[e.keyId])
    else if ContextError(x, e.payload, expected).Some? then ContextError(x, e.payload, expected)
    else TimeError(e.payload, now, skew)
  }

  /** The envelope may be consumed: signed by a trusted key, made for this request, and in time. */
  ghost predicate Consumable(x: Externals, bundle: Bundle, e: Envelope, expected: Expected, now: int, skew: nat) {
    && x.wellFormed(e)
    && e.keyId in bundle
    && |e.signature| == 2 * SIGNATURE_BYTES && IsHex(e.signature)
    && (exists message :: x.signingBytes(e.payload) == Some(message) &&
                          x.signed(bundle[e.keyId].publicKey, message, Unhex(e.signature)))
    && e.payload == e.payload.(tenantId := expected.tenantId, workspaceId := expected.workspaceId,
                               agentId := expected.agentId, sessionId := expected.sessionId,
                               missionId := expected.missionId, runId := expected.runId,
                               requestId := expected.requestId, queryDigest := x.sha256(expected.query))
    && 0 <= now < e.payload.expiresAt
    && e.payload.issuedAt <= now + skew && e.payload.issuedAt <= MAX_I64
  }

  /** The order of the checks decides which error is reported, not which envelopes pass. */
  lemma ConsumableExact(x: Externals, bundle: Bundle, e: Envelope, expected: Expected, now: int, skew: nat)
    ensures Consumable(x, bundle, e, expected, now, skew) <==> FirstError(x, bundle, e, expected, now, skew).None?
  {
  }

  /** The component of the payload is not what the request asked for. */
  predicate Differs(x: Externals, p: Payload, expected: Expected, field: ContextField) {
    match field
    case TenantId => p.tenantId != expected.tenantId
    case WorkspaceId => p.workspaceId != expected.workspaceId
    case AgentId => p.agentId != expected.agentId
    case SessionId => p.sessionId != expected.sessionId
    case MissionId => p.missionId != expected.missionId
    case RunId => p.runId != expected.runId
    case RequestId => p.requestId != expected.requestId
    case QueryDigest => p.queryDigest != x.sha256(expected.query)
  }

  /** The place of a component in the order of the checks. */
  function Place(field: ContextField): nat {
    match field
    case TenantId => 0
    case WorkspaceId => 1
    case AgentId => 2
    case SessionId => 3
    case MissionId => 4
    case RunId => 5
    case RequestId => 6
    case QueryDigest => 7
  }

  ghost predicate FirstDifference(x: Externals, p: Payload, expected: Expected, field: ContextField) {
    Differs(x, p, expected, field) && forall f | Differs(x, p, expected, f) :: Place(field) <= Place(f)
  }

  ghost predicate ForRequest(x: Externals, p: Payload, expected: Expected) {
    forall field :: !Differs(x, p, expected, field)
  }

  /** The first difference in this order is reported, and an absent optional component differs from a present
      one. */
  lemma ContextErrorExact(x: Externals, p: Payload, expected: Expected, field: ContextField)
    ensures ContextError(x, p, expected) == Some(ContextMismatch(field)) <==> FirstDifference(x, p, expected, field)
    ensures ContextError(x, p, expected).None? <==> ForRequest(x, p, expected)
    ensures ContextError(x, p, expected).Some? ==> ContextError(x, p, expected).value.ContextMismatch?
  {
    var error := ContextError(x, p, expected);
    if error.Some? {
      assert Differs(x, p, expected, error.value.field);
    }
  }

  /** The envelope is well formed and its signature is one of a trusted key over its payload. */
  ghost predicate Authentic(x: Externals, bundle: Bundle, e: Envelope) {
    && x.wellFormed(e) && e.keyId in bundle
    && |e.signature| == 2 * SIGNATURE_BYTES && IsHex(e.signature)
    && x.signingBytes(e.payload).Some?
    && x.signed(bundle[e.keyId].publicKey, x.signingBytes(e.payload).value, Unhex(e.signature))
  }

  /** Which error is reported: authenticity comes first, then the components of the request in their order, and
      only an authentic envelope for this request is checked for its time. */
  lemma FirstErrorExact(x: Externals, bundle: Bundle, e: Envelope, expected: Expected, now: int, skew: nat,
                        field: ContextField)
    ensures var error := FirstError(x, bundle, e, expected, now, skew);
            var hex := |e.signature| == 2 * SIGNATURE_BYTES && IsHex(e.signature);
            var bound := Authentic(x, bundle, e) && ForRequest(x, e.payload, expected);
            && (error == Some(UnknownSigningKey) <==> x.wellFormed(e) && e.keyId !in bundle)
            && (error == Some(InvalidSignatureEncoding) <==> x.wellFormed(e) && e.keyId in bundle && !hex)
            && (error == Some(InvalidEnvelope) <==>
                  !x.wellFormed(e) || (e.keyId in bundle && hex && x.signingBytes(e.payload).None?))
            && (error == Some(InvalidSignature) <==>
                  && x.wellFormed(e) && e.keyId in bundle && hex && x.signingBytes(e.payload).Some?
                  && !Authentic(x, bundle, e))
            && (error == Some(ContextMismatch(field)) <==>
                  Authentic(x, bundle, e) && FirstDifference(x, e.payload, expected, field))
            && (error == Some(InvalidClock) <==> bound && now < 0)
            && (error == Some(Expired) <==> bound && 0 <= now && e.payload.expiresAt <= now)
            && (error == Some(IssuedTooFarInFuture) <==>
                  && bound && 0 <= now < e.payload.expiresAt
                  && (now + skew < e.payload.issuedAt || MAX_I64 < e.payload.issuedAt))
            && (error.None? <==> bound && 0 <= now < e.payload.expiresAt &&
                                 e.payload.issuedAt <= now + skew && e.payload.issuedAt <= MAX_I64)
  {
    ContextErrorExact(x, e.payload, expected, field);
  }

  method VerifySignature(x: Externals, e: Envelope, key: TrustedKey) returns (error: Option<Error>)
    ensures error == SignatureError(x, e, key)
  {
    var ok, decoded := DecodeHex(e.signature, SIGNATURE_BYTES);
    if !ok {
      return Some(InvalidSignatureEncoding);
    }
    UnhexRoundTrip(decoded[..]);
    match x.signingBytes(e.payload) {
      case None =>
        error := Some(InvalidEnvelope);
      case Some(message) =>
        error := if x.signed(key.publicKey, message, decoded[..]) then None else Some(InvalidSignature);
    }
  }

  /** One verification as session `id` of the shared database, reading `now` from its clock. */
  method VerifyJson(x: Externals, bundle: Bundle, skew: nat, db: DB.Database, id: nat, now: int,
                    json: string, expected: Expected) returns (r: Outcome)
    requires db.Valid() && id !in db.state.runs
    modifies db
    ensures db.Valid() && old(db.trace) <= db.trace
    // Nothing is consumed for an envelope that is not authentic, bound and in time.
    ensures x.parse(json).None? ==> r == Rejected(ParseFailed)
    ensures x.parse(json).None? || !Consumable(x, bundle, x.parse(json).value, expected, now, skew) ==>
              db.trace == old(db.trace) && db.state == old(db.state)
    ensures x.parse(json).Some? && !Consumable(x, bundle, x.parse(json).value, expected, now, skew) ==>
              var error := FirstError(x, bundle, x.parse(json).value, expected, now, skew);
              error.Some? && r == Rejected(error.value)
    // An acceptable envelope is accepted exactly when its consume was fresh and was heard of in time.
    ensures x.parse(json).Some? && Consumable(x, bundle, x.parse(json).value, expected, now, skew) ==>
              var e := x.parse(json).value;
              && id in db.state.runs && db.state.runs[id].claim == ClaimOf(x, e.payload, bundle[e.keyId])
              && (r.Accepted? <==> DB.ValidNonce(e.payload.nonce) && db.state.runs[id].phase.Verified?)
              && (r == Rejected(AlreadyConsumed) <==> db.state.runs[id].phase.Refused?)
              && (r.Accepted? ==> r.envelope == e && r.verifiedAt == now && r.ns == db.state.runs[id].claim.row.ns)
              && (r.Rejected? && r.error != AlreadyConsumed ==>
                    r.error.StoreFailed? && r.error.cause != DB.RowNotFound)
  {
    var parsed := x.parse(json);
    if parsed.None? {
      return Rejected(ParseFailed);
    }
    var e := parsed.value;
    ConsumableExact(x, bundle, e, expected, now, skew);
    if !x.wellFormed(e) {
      return Rejected(InvalidEnvelope);
    }
    if e.keyId !in bundle {
      return Rejected(UnknownSigningKey);
    }
    var key := bundle[e.keyId];
    var error := VerifySignature(x, e, key);
    if error.Some? {
      return Rejected(error.value);
    }
    error := ContextError(x, e.payload, expected);
    if error.Some? {
      return Rejected(error.value);
    }
    error := TimeError(e.payload, now, skew);
    if error.Some? {
      return Rejected(error.value);
    }
    var ns := DeriveReplayNamespace(x.sha256, Fingerprint(x, key), e.payload.tenantId, e.payload.workspaceId);
    var claim := Claim(RowKey(ns, e.payload.nonce), e.payload.expiresAt);
    db.Do(ReadClock(id, claim, now));
    var consumed := db.ConsumeOnce(id);
    if consumed.Err? {
      return Rejected(StoreFailed(consumed.error));
    }
    db.Do(Return(id));
    if consumed.value.Replayed? {
      return Rejected(AlreadyConsumed);
    }
    r := Accepted(e, now, ns);
  }

  /** Two envelopes make the same claim exactly when they agree on the physical key, tenant,
      workspace, nonce and expiry.  The unsigned key id plays no part, so an alias for one key
      cannot open a second replay partition. */
  lemma ClaimExact(x: Externals, p: Payload, k: TrustedKey, q: Payload, l: TrustedKey)
    requires CollisionFree(x.sha256)
    requires |Fingerprint(x, k)| < TWO_TO_64 && |Fingerprint(x, l)| < TWO_TO_64
    requires |p.tenantId| < TWO_TO_64 && (p.workspaceId.Some? ==> |p.workspaceId.value| < TWO_TO_64)
    requires |q.tenantId| < TWO_TO_64 && (q.workspaceId.Some? ==> |q.workspaceId.value| < TWO_TO_64)
    ensures ClaimOf(x, p, k) == ClaimOf(x, q, l) <==>
            k.publicKey == l.publicKey && p.tenantId == q.tenantId && p.workspaceId == q.workspaceId &&
            p.nonce == q.nonce && p.expiresAt == q.expiresAt
  {
    if ClaimOf(x, p, k) == ClaimOf(x, q, l) {
      NamespaceInputInjective(Fingerprint(x, k), p.tenantId, p.workspaceId,
                              Fingerprint(x, l), q.tenantId, q.workspaceId);
    }
  }

  /** Over any run of any number of verifiers, a signed payload is accepted at most once, whichever
      trusted alias of the signing key the copies name. */
  lemma PayloadAcceptedAtMostOnce(x: Externals, steps: seq<Step>, slack: int, a: nat, b: nat,
                                  p: Payload, k: TrustedKey, q: Payload, l: TrustedKey)
    requires Legal(Init(), steps) && DisciplinedRun(Init(), steps, slack) && slack <= 1
    requires a != b && HasPhase(Final(Init(), steps), a, Verified) && HasPhase(Final(Init(), steps), b, Verified)
    requires Final(Init(), steps).runs[a].claim == ClaimOf(x, p, k)
    requires Final(Init(), steps).runs[b].claim == ClaimOf(x, q, l)
    ensures p != q || k.publicKey != l.publicKey
  {
    AtMostOnce(steps, slack);
  }
}
