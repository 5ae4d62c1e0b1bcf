/** DSSE envelopes for proof capsules.

    Base64, Ed25519 and the canonical bytes of a capsule are parameters; hexadecimal is modelled. */
module Dsse {
  import opened Encoding
  import opened Options

  const CAPSULE_PAYLOAD_TYPE := Ascii("application/vnd.nexus.proof-capsule+json")
  const SPACE: Byte := 0x20
  const HEADER := Ascii("DSSEv1")

  /** Decimal digits, most significant first. */
  function Decimal(n: nat): (digits: Bytes)
    ensures digits != [] && forall d | d in digits :: 0x30 <= d <= 0x39
    decreases n
  {
    if n < 10 then [0x30 + n] else Decimal(n / 10) + [0x30 + n % 10]
  }

  function FromDecimal(digits: Bytes): int {
    if digits == [] then 0
    else
      var last: int := digits[|digits| - 1];
      10 * FromDecimal(digits[..|digits| - 1]) + (last - 0x30)
  }

  lemma {:induction false} DecimalRoundTrip(n: nat)
    ensures FromDecimal(Decimal(n)) == n
    decreases n
  {
    if n < 10 {
      assert Decimal(n)[..0] == [];
    } else {
      DecimalRoundTrip(n / 10);
      assert Decimal(n)[..|Decimal(n)| - 1] == Decimal(n / 10);
    }
  }

  function Pow10(k: nat): (p: nat)
    ensures 1 <= p
  {
    if k == 0 then 1 else 10 * Pow10(k - 1)
  }

  lemma FromDecimalSnoc(digits: Bytes, digit: Byte)
    ensures FromDecimal(digits + [digit]) == 10 * FromDecimal(digits) + (digit as int - 0x30)
  {
    assert (digits + [digit])[..|digits|] == digits;
  }

  /** The first digit counts most. */
  lemma {:induction false} MostSignificantFirst(front: Bytes, back: Bytes)
    ensures FromDecimal(front + back) == FromDecimal(front) * Pow10(|back|) + FromDecimal(back)
    decreases |back|
  {
    if back == [] {
      assert front + back == front;
    } else {
      var middle, last := back[..|back| - 1], back[|back| - 1];
      MostSignificantFirst(front, middle);
      FromDecimalSnoc(front + middle, last);
      FromDecimalSnoc(middle, last);
      assert back == middle + [last] && front + back == front + middle + [last];
      OneMoreDigit(10, FromDecimal(front), Pow10(|middle|), FromDecimal(middle), last as int - 0x30);
    }
  }

  /** There are no leading zeros. */
  lemma {:induction false} FirstDigit(n: nat)
    requires 0 < n
    ensures Decimal(n)[0] != 0x30
    decreases n
  {
    if n >= 10 {
      FirstDigit(n / 10);
    }
  }

  /** The DSSE v1 pre-authentication encoding. */
  function Pae(payloadType: Bytes, payload: Bytes): Bytes {
    HEADER + ([SPACE] + (Decimal(|payloadType|) + [SPACE] + (payloadType + ([SPACE]
    + (Decimal(|payload|) + [SPACE] + payload)))))
  }

  /** Equal encodings mean equal type and equal payload: the decimal lengths make it uniquely
      decodable even when type or payload contain spaces and digits. */
  lemma PaeInjective(t: Bytes, p: Bytes, t': Bytes, p': Bytes)
    requires Pae(t, p) == Pae(t', p')
    ensures t == t' && p == p'
  {
    var tail, tail' := Decimal(|p|) + [SPACE] + p, Decimal(|p'|) + [SPACE] + p';
    var rest, rest' := t + ([SPACE] + tail), t' + ([SPACE] + tail');
    var body, body' := Decimal(|t|) + [SPACE] + rest, Decimal(|t'|) + [SPACE] + rest';
    CommonPrefix(HEADER, [SPACE] + body, [SPACE] + body');
    CommonPrefix([SPACE], body, body');
    SplitAtFirst(SPACE, Decimal(|t|), rest, Decimal(|t'|), rest');
    DecimalRoundTrip(|t|);
    DecimalRoundTrip(|t'|);
    assert rest[..|t|] == t && rest'[..|t'|] == t';
    CommonPrefix(t, [SPACE] + tail, [SPACE] + tail');
    CommonPrefix([SPACE], tail, tail');
    SplitAtFirst(SPACE, Decimal(|p|), p, Decimal(|p'|), p');
  }

  /** The encoding begins with the header, the length of the type and the type, and goes on with the length of
      the payload and the payload, which is all that is behind it. */
  lemma PaeLayout(t: Bytes, p: Bytes)
    ensures var front := HEADER + [SPACE] + Decimal(|t|) + [SPACE] + t;
            var back := [SPACE] + Decimal(|p|) + [SPACE] + p;
            && |Pae(t, p)| == |front| + |back|
            && Pae(t, p)[..|front|] == front && Pae(t, p)[|front|..] == back
  {
    var front := HEADER + [SPACE] + Decimal(|t|) + [SPACE] + t;
    var back := [SPACE] + Decimal(|p|) + [SPACE] + p;
    assert Pae(t, p) == front + back;
  }

  datatype Signature = Signature(keyId: string, sig: string)

  datatype Envelope = Envelope(payloadType: Bytes, payload: string, signatures: seq<Signature>)

  datatype Error =
    | UnexpectedPayloadType
    | PayloadNotBase64
    | NoSignature
    | SignatureNotBase64
    | SignatureLength
    | BadSignature

  const SIGNATURE_BYTES: nat := 64

  datatype Crypto = Crypto(
    encode: Bytes -> string,
    decode: string -> Option<Bytes>,
    public: Bytes -> Bytes,
    sign: (Bytes, Bytes) -> Bytes,
    verify: (Bytes, Bytes, Bytes) -> bool)

  /** What base64 and an Ed25519 key pair promise. */
  ghost predicate Sound(x: Crypto) {
    && (forall b :: x.decode(x.encode(b)) == Some(b))
    && (forall key, m :: |x.sign(key, m)| == SIGNATURE_BYTES)
    && (forall key, m :: x.verify(x.public(key), m, x.sign(key, m)))
  }

  function LowerAscii(c: char): char {
    if 'A' <= c <= 'Z' then c - 'A' + 'a' else c
  }

  predicate SameIgnoringCase(a: string, b: string) {
    |a| == |b| && forall i | 0 <= i < |a| :: LowerAscii(a[i]) == LowerAscii(b[i])
  }

  function FindSignature(signatures: seq<Signature>, keyId: string): Option<Signature> {
    if signatures == [] then None
    else if SameIgnoringCase(signatures[0].keyId, keyId) then Some(signatures[0])
    else FindSignature(signatures[1..], keyId)
  }

  function WrapCapsule(x: Crypto, canonical: Bytes, key: Bytes): Envelope {
    Envelope(CAPSULE_PAYLOAD_TYPE, x.encode(canonical),
             [Signature(Hex(x.public(key)), x.encode(x.sign(key, Pae(CAPSULE_PAYLOAD_TYPE, canonical))))])
  }

  /** The first reason to refuse an envelope. */
  function VerifyEnvelope(x: Crypto, e: Envelope, key: Bytes): Option<Error> {
    if e.payloadType != CAPSULE_PAYLOAD_TYPE then Some(UnexpectedPayloadType)
    else
      match x.decode(e.payload)
      case None => Some(PayloadNotBase64)
      case Some(payload) =>
        match FindSignature(e.signatures, Hex(key))
        case None => Some(NoSignature)
        case Some(signature) =>
          match x.decode(signature.sig)
          case None => Some(SignatureNotBase64)
          case Some(bytes) =>
            if |bytes| != SIGNATURE_BYTES then Some(SignatureLength)
            else if x.verify(key, Pae(e.payloadType, payload), bytes) then None
            else Some(BadSignature)
  }

  /** Equal up to the case of ASCII letters. */
  predicate Alike(a: char, b: char) {
    a == b || ('A' <= a <= 'Z' && b as int == a as int + 32) || ('A' <= b <= 'Z' && a as int == b as int + 32)
  }

  ghost predicate NamesKey(s: Signature, keyId: string) {
    |s.keyId| == |keyId| && forall i | 0 <= i < |keyId| :: Alike(s.keyId[i], keyId[i])
  }

  /** The signature that counts is the first one under the key's id, in any case. */
  ghost predicate FirstUnder(signatures: seq<Signature>, keyId: string, i: nat) {
    && i < |signatures| && NamesKey(signatures[i], keyId)
    && forall j | 0 <= j < i :: !NamesKey(signatures[j], keyId)
  }

  lemma SameIgnoringCaseExact(s: Signature, keyId: string)
    ensures SameIgnoringCase(s.keyId, keyId) <==> NamesKey(s, keyId)
  {
    if |s.keyId| == |keyId| {
      assert forall i | 0 <= i < |keyId| ::
          LowerAscii(s.keyId[i]) == LowerAscii(keyId[i]) <==> Alike(s.keyId[i], keyId[i]);
    }
  }

  lemma {:induction false} FindSignatureExact(signatures: seq<Signature>, keyId: string, s: Signature)
    ensures FindSignature(signatures, keyId) == Some(s) <==>
            exists i: nat :: FirstUnder(signatures, keyId, i) && signatures[i] == s
    ensures FindSignature(signatures, keyId).None? <==> forall i: nat :: !FirstUnder(signatures, keyId, i)
  {
    if signatures != [] {
      SameIgnoringCaseExact(signatures[0], keyId);
      if NamesKey(signatures[0], keyId) {
        assert FirstUnder(signatures, keyId, 0);
      } else {
        var rest := signatures[1..];
        FindSignatureExact(rest, keyId, s);
        forall i: nat
          ensures FirstUnder(rest, keyId, i) <==> FirstUnder(signatures, keyId, i + 1)
        {
          assert forall j | 0 <= j < |rest| :: rest[j] == signatures[j + 1];
          assert forall j | 0 < j < |signatures| :: signatures[j] == rest[j - 1];
        }
        assert forall i: nat :: FirstUnder(signatures, keyId, i) ==> i > 0 && FirstUnder(rest, keyId, i - 1);
      }
    }
  }

  ghost predicate SignsCapsule(x: Crypto, key: Bytes, payload: Bytes, sig: Option<Bytes>) {
    sig.Some? && |sig.value| == 64 && x.verify(key, Pae(CAPSULE_PAYLOAD_TYPE, payload), sig.value)
  }

  /** An envelope is accepted exactly if it has the capsule type and the first signature under the key's id is a
      good one, of the right length, of the encoding of type and payload. */
  lemma AcceptedExactly(x: Crypto, e: Envelope, key: Bytes)
    ensures VerifyEnvelope(x, e, key).None? <==>
            && e.payloadType == CAPSULE_PAYLOAD_TYPE && x.decode(e.payload).Some?
            && exists i: nat :: FirstUnder(e.signatures, Hex(key), i) &&
                 SignsCapsule(x, key, x.decode(e.payload).value, x.decode(e.signatures[i].sig))
  {
    var found := FindSignature(e.signatures, Hex(key));
    if found.Some? {
      FindSignatureExact(e.signatures, Hex(key), found.value);
      OneFirst(e.signatures, Hex(key));
    } else {
      FindSignatureExact(e.signatures, Hex(key), Signature("", ""));
    }
  }

  lemma OneFirst(signatures: seq<Signature>, keyId: string)
    ensures forall i: nat, j: nat | FirstUnder(signatures, keyId, i) && FirstUnder(signatures, keyId, j) :: i == j
  {
  }

  lemma WrapVerifies(x: Crypto, canonical: Bytes, key: Bytes)
    requires Sound(x)
    ensures VerifyEnvelope(x, WrapCapsule(x, canonical, key), x.public(key)).None?
    ensures x.decode(WrapCapsule(x, canonical, key).payload) == Some(canonical)
  {
    var e := WrapCapsule(x, canonical, key);
    assert x.decode(e.payload) == Some(canonical);
    assert FindSignature(e.signatures, Hex(x.public(key))) == Some(e.signatures[0]);
  }

  /** If the key only ever signed pre-authentication encodings, an accepted envelope carries exactly
      a payload that was signed under the capsule type: neither a signature for another type nor one
      for another split of the same bytes will do. */
  lemma AcceptedWasSigned(x: Crypto, e: Envelope, key: Bytes, signed: set<(Bytes, Bytes)>)
    requires forall m, sig :: x.verify(key, m, sig) ==> exists s | s in signed :: m == Pae(s.0, s.1)
    requires VerifyEnvelope(x, e, key).None?
    ensures x.decode(e.payload).Some? && (CAPSULE_PAYLOAD_TYPE, x.decode(e.payload).value) in signed
  {
    var payload := x.decode(e.payload).value;
    var s :| s in signed && Pae(CAPSULE_PAYLOAD_TYPE, payload) == Pae(s.0, s.1);
    PaeInjective(CAPSULE_PAYLOAD_TYPE, payload, s.0, s.1);
  }
}
