/** The replay partition of an envelope: SHA-256 over length-prefixed parts.

    SHA-256 is a parameter; where a lemma needs it to be collision free it says so. */
module ReplayNamespace {
  import opened Encoding
  import opened Lists
  import opened Options

  const REPLAY_NAMESPACE_DOMAIN := Ascii("NEXUS_RECALL_V2_REPLAY_NAMESPACE_V1") + [0]
  const RECALL_PROTOCOL_VERSION := Ascii("aeon-recall-envelope-v2")
  const RECALL_CANONICALIZATION_VERSION := Ascii("aeon-canonical-json-v1")
  const RECALL_SIGNING_DOMAIN_LABEL := Ascii("AEON_RECALL_ENVELOPE_V2")
  const RECALL_SIGNATURE_ALGORITHM := Ascii("ed25519")

  type Sha256 = Bytes -> Bytes

  ghost predicate CollisionFree(sha: Sha256) {
    forall a, b | sha(a) == sha(b) :: a == b
  }

  /** Eight bytes of length, then the value.  Lengths are machine words, below 2^64. */
  function Part(value: Bytes): Bytes {
    Prefixed(value, 8)
  }

  function OptionalPart(value: Option<Bytes>): Bytes {
    match value
    case Some(v) => [1] + Part(v)
    case None => [0]
  }

  /** Frozen protocol metadata, the same for every envelope. */
  function Metadata(): Bytes {
    Part(REPLAY_NAMESPACE_DOMAIN) + Part(RECALL_PROTOCOL_VERSION) + Part(RECALL_CANONICALIZATION_VERSION)
    + Part(RECALL_SIGNING_DOMAIN_LABEL) + Part(RECALL_SIGNATURE_ALGORITHM)
  }

  function NamespaceInput(fingerprint: Bytes, tenant: Bytes, workspace: Option<Bytes>): Bytes {
    Metadata() + (Part(fingerprint) + (Part(tenant) + OptionalPart(workspace)))
  }

  /** A running digest: the bytes it has been fed so far. */
  class RunningDigest {
    var fed: Bytes

    constructor ()
      ensures fed == []
    {
      fed := [];
    }

    method Update(value: Bytes)
      modifies this
      ensures fed == old(fed) + value
    {
      fed := fed + value;
    }

    method AppendNamespacePart(value: Bytes)
      modifies this
      ensures fed == old(fed) + Part(value)
    {
      Update(BigEndian(|value|, 8));
      Update(value);
    }

    method AppendOptionalNamespacePart(value: Option<Bytes>)
      modifies this
      ensures fed == old(fed) + OptionalPart(value)
    {
      match value {
        case Some(v) =>
          Update([1]);
          AppendNamespacePart(v);
        case None =>
          Update([0]);
      }
    }
  }

  method DeriveReplayNamespace(sha: Sha256, fingerprint: Bytes, tenant: Bytes, workspace: Option<Bytes>)
    returns (ns: Bytes)
    ensures ns == sha(NamespaceInput(fingerprint, tenant, workspace))
  {
    var digest := new RunningDigest();
    digest.AppendNamespacePart(REPLAY_NAMESPACE_DOMAIN);
    digest.AppendNamespacePart(RECALL_PROTOCOL_VERSION);
    digest.AppendNamespacePart(RECALL_CANONICALIZATION_VERSION);
    digest.AppendNamespacePart(RECALL_SIGNING_DOMAIN_LABEL);
    digest.AppendNamespacePart(RECALL_SIGNATURE_ALGORITHM);
    ghost var metadata := digest.fed;
    assert metadata == Metadata();
    digest.AppendNamespacePart(fingerprint);
    digest.AppendNamespacePart(tenant);
    digest.AppendOptionalNamespacePart(workspace);
    Regroup(metadata, Part(fingerprint), Part(tenant), OptionalPart(workspace));
    ns := sha(digest.fed);
  }

  lemma Regroup(a: Bytes, b: Bytes, c: Bytes, d: Bytes)
    ensures a + b + c + d == a + (b + (c + d))
  {
  }

  lemma PartsSplit(a: Bytes, x: Bytes, b: Bytes, y: Bytes)
    requires |a| < TWO_TO_64 && |b| < TWO_TO_64
    requires Part(a) + x == Part(b) + y
    ensures a == b && x == y
  {
    LengthWidths();
    PrefixedSplit(a, x, b, y, 8);
  }

  lemma OptionalPartsDiffer(a: Option<Bytes>, b: Option<Bytes>)
    requires a.Some? ==> |a.value| < TWO_TO_64
    requires b.Some? ==> |b.value| < TWO_TO_64
    requires OptionalPart(a) == OptionalPart(b)
    ensures a == b
  {
    assert OptionalPart(a)[0] == OptionalPart(b)[0];
    if a.Some? && b.Some? {
      assert Part(a.value) == OptionalPart(a)[1..] == OptionalPart(b)[1..] == Part(b.value);
      PartsSplit(a.value, [], b.value, []);
    }
  }

  /** Reads one part: eight bytes of length, then as many bytes. */
  function TakePart(bytes: Bytes): Option<(Bytes, Bytes)> {
    if |bytes| < 8 then None
    else
      var length := FromBigEndian(bytes[..8]);
      if |bytes| < 8 + length then None else Some((bytes[8..8 + length], bytes[8 + length..]))
  }

  /** Reads `count` parts one after the other; what is left comes last. */
  function TakeParts(bytes: Bytes, count: nat): Option<(seq<Bytes>, Bytes)> {
    if count == 0 then Some(([], bytes))
    else
      match TakePart(bytes)
      case None => None
      case Some((part, rest)) =>
        match TakeParts(rest, count - 1)
        case None => None
        case Some((parts, left)) => Some(([part] + parts, left))
  }

  lemma PartReadsBack(value: Bytes, rest: Bytes)
    requires |value| < TWO_TO_64
    ensures TakePart(Part(value) + rest) == Some((value, rest))
  {
    LengthWidths();
    BigEndianRoundTrip(|value|, 8);
    var bytes := Part(value) + rest;
    assert bytes[..8] == BigEndian(|value|, 8);
    assert bytes[8..8 + |value|] == value && bytes[8 + |value|..] == rest;
  }

  function Joined(parts: seq<Bytes>): Bytes {
    if parts == [] then [] else Part(parts[0]) + Joined(parts[1..])
  }

  lemma {:induction false} PartsReadBack(parts: seq<Bytes>, rest: Bytes)
    requires forall i | 0 <= i < |parts| :: |parts[i]| < TWO_TO_64
    ensures TakeParts(Joined(parts) + rest, |parts|) == Some((parts, rest))
    decreases |parts|
  {
    if parts == [] {
      assert Joined(parts) + rest == rest;
    } else {
      assert Joined(parts) + rest == Part(parts[0]) + (Joined(parts[1..]) + rest);
      PartReadsBack(parts[0], Joined(parts[1..]) + rest);
      PartsReadBack(parts[1..], rest);
      assert parts == [parts[0]] + parts[1..];
    }
  }

  /** What is hashed, part by part. */
  function NamespaceParts(fingerprint: Bytes, tenant: Bytes): seq<Bytes> {
    [REPLAY_NAMESPACE_DOMAIN, RECALL_PROTOCOL_VERSION, RECALL_CANONICALIZATION_VERSION,
     RECALL_SIGNING_DOMAIN_LABEL, RECALL_SIGNATURE_ALGORITHM, fingerprint, tenant]
  }

  lemma JoinedFront(first: Bytes, rest: seq<Bytes>)
    ensures Joined([first] + rest) == Part(first) + Joined(rest)
  {
    assert ([first] + rest)[1..] == rest;
  }

  lemma RegroupFive(a: Bytes, b: Bytes, c: Bytes, d: Bytes, e: Bytes, rest: Bytes)
    ensures a + (b + (c + (d + (e + rest)))) == a + b + c + d + e + rest
  {
    Associative(d, e, rest);
    Associative(c, d + e, rest);
    Associative(b, c + (d + e), rest);
    Associative(a, b + (c + (d + e)), rest);
    assert a + (b + (c + (d + e))) == a + b + c + d + e;
  }

  lemma SevenParts(fingerprint: Bytes, tenant: Bytes)
    ensures Joined(NamespaceParts(fingerprint, tenant)) == Metadata() + (Part(fingerprint) + Part(tenant))
  {
    var a, b, c := REPLAY_NAMESPACE_DOMAIN, RECALL_PROTOCOL_VERSION, RECALL_CANONICALIZATION_VERSION;
    var d, e := RECALL_SIGNING_DOMAIN_LABEL, RECALL_SIGNATURE_ALGORITHM;
    JoinedFront(tenant, []);
    JoinedFront(fingerprint, [tenant]);
    JoinedFront(e, [fingerprint] + [tenant]);
    JoinedFront(d, [e] + ([fingerprint] + [tenant]));
    JoinedFront(c, [d] + ([e] + ([fingerprint] + [tenant])));
    JoinedFront(b, [c] + ([d] + ([e] + ([fingerprint] + [tenant]))));
    JoinedFront(a, [b] + ([c] + ([d] + ([e] + ([fingerprint] + [tenant])))));
    assert [tenant] + [] == [tenant] && Part(tenant) + [] == Part(tenant);
    assert [a] + ([b] + ([c] + ([d] + ([e] + ([fingerprint] + [tenant]))))) == NamespaceParts(fingerprint, tenant);
    RegroupFive(Part(a), Part(b), Part(c), Part(d), Part(e), Part(fingerprint) + Part(tenant));
  }

  lemma InputIsJoined(fingerprint: Bytes, tenant: Bytes, workspace: Option<Bytes>)
    ensures NamespaceInput(fingerprint, tenant, workspace)
         == Joined(NamespaceParts(fingerprint, tenant)) + OptionalPart(workspace)
  {
    SevenParts(fingerprint, tenant);
    Associative(Part(fingerprint), Part(tenant), OptionalPart(workspace));
    Associative(Metadata(), Part(fingerprint) + Part(tenant), OptionalPart(workspace));
  }

  /** The hashed bytes read back: the five fixed parts, the key fingerprint and the tenant in this order, and then
      a zero byte, or a one and the workspace. */
  lemma NamespaceReadsBack(fingerprint: Bytes, tenant: Bytes, workspace: Option<Bytes>) returns (last: Bytes)
    requires |fingerprint| < TWO_TO_64 && |tenant| < TWO_TO_64
    requires workspace.Some? ==> |workspace.value| < TWO_TO_64
    ensures TakeParts(NamespaceInput(fingerprint, tenant, workspace), 7)
         == Some((NamespaceParts(fingerprint, tenant), last))
    ensures match workspace
            case None => last == [0]
            case Some(w) => last != [] && last[0] == 1 && TakePart(last[1..]) == Some((w, []))
  {
    last := OptionalPart(workspace);
    InputIsJoined(fingerprint, tenant, workspace);
    PartsReadBack(NamespaceParts(fingerprint, tenant), last);
    if workspace.Some? {
      PartReadsBack(workspace.value, []);
      assert last[1..] == Part(workspace.value) + [];
    }
  }

  /** The hashed byte string determines key fingerprint, tenant and optional workspace; a missing
      workspace is not confused with an empty one. */
  lemma NamespaceInputInjective(f1: Bytes, t1: Bytes, w1: Option<Bytes>, f2: Bytes, t2: Bytes, w2: Option<Bytes>)
    requires |f1| < TWO_TO_64 && |t1| < TWO_TO_64 && (w1.Some? ==> |w1.value| < TWO_TO_64)
    requires |f2| < TWO_TO_64 && |t2| < TWO_TO_64 && (w2.Some? ==> |w2.value| < TWO_TO_64)
    requires NamespaceInput(f1, t1, w1) == NamespaceInput(f2, t2, w2)
    ensures f1 == f2 && t1 == t2 && w1 == w2
  {
    var rest1 := Part(t1) + OptionalPart(w1);
    var rest2 := Part(t2) + OptionalPart(w2);
    CommonPrefix(Metadata(), Part(f1) + rest1, Part(f2) + rest2);
    PartsSplit(f1, rest1, f2, rest2);
    PartsSplit(t1, OptionalPart(w1), t2, OptionalPart(w2));
    OptionalPartsDiffer(w1, w2);
  }
}
