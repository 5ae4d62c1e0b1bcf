/** The pinned trust roots: parsing the operator's key document into two sorted id lists and a bundle.

    JSON parsing, SHA-256 and the validity of a curve point are parameters. */
module PinnedKeys {
  import opened Encoding
  import opened Options
  import opened Ordering

  const TRUSTED_KEY_DOCUMENT_VERSION: nat := 1
  const CANONICAL_KEY_ID_PREFIX: string := "ed25519-sha256:"
  const PUBLIC_KEY_BYTES: nat := 32

  datatype KeyState = Active | Retired

  datatype KeyRecord = KeyRecord(keyId: string, publicKeyHex: string, state: KeyState)

  datatype Document = Document(version: nat, keys: seq<KeyRecord>)

  datatype Error =
    | InvalidDocument
    | UnsupportedDocumentVersion(found: nat)
    | EmptyBundle
    | EmptyKeyId
    | InvalidPublicKeyHex(keyId: string)
    | InvalidPublicKey(keyId: string)
    | NonCanonicalKeyId(supplied: string, expected: string)
    | DuplicateKeyId(keyId: string)
    | DuplicatePublicKey
    | MissingActiveKey

  datatype KeySet = KeySet(bundle: map<string, Bytes>, activeKeyIds: seq<string>, retiredKeyIds: seq<string>)

  datatype Loaded = Ok(keys: KeySet) | Err(error: Error)

  datatype Externals = Externals(sha256: Bytes -> Bytes, validPoint: Bytes -> bool)

  function CanonicalKeyId(x: Externals, publicKey: Bytes): string {
    CANONICAL_KEY_ID_PREFIX + Hex(x.sha256(publicKey))
  }

  predicate WellFormedHex(s: string) {
    |s| == 2 * PUBLIC_KEY_BYTES && IsHex(s)
  }

  /** The first thing wrong with a record on its own. */
  function RecordError(x: Externals, r: KeyRecord): Option<Error> {
    if r.keyId == "" then Some(EmptyKeyId)
    else if !WellFormedHex(r.publicKeyHex) then Some(InvalidPublicKeyHex(r.keyId))
    else if !x.validPoint(Unhex(r.publicKeyHex)) then Some(InvalidPublicKey(r.keyId))
    else if r.keyId != CanonicalKeyId(x, Unhex(r.publicKeyHex))
    then Some(NonCanonicalKeyId(r.keyId, CanonicalKeyId(x, Unhex(r.publicKeyHex))))
    else None
  }

  /** A record is good exactly if its key is sixty-four digits that stand for a point of the curve and its id is
      the one derived from that key; otherwise the first thing wrong in this order is reported. */
  lemma RecordExact(x: Externals, r: KeyRecord)
    ensures var digits := |r.publicKeyHex| == 64 && IsHex(r.publicKeyHex);
            var error := RecordError(x, r);
            && (error.None? <==>
                  && r.keyId != "" && digits && x.validPoint(Unhex(r.publicKeyHex))
                  && r.keyId == "ed25519-sha256:" + Hex(x.sha256(Unhex(r.publicKeyHex))))
            && (error == Some(EmptyKeyId) <==> r.keyId == "")
            && (error == Some(InvalidPublicKeyHex(r.keyId)) <==> r.keyId != "" && !digits)
            && (error == Some(InvalidPublicKey(r.keyId)) <==>
                  r.keyId != "" && digits && !x.validPoint(Unhex(r.publicKeyHex)))
  {
  }

  /** Every record is good on its own and no id occurs twice. */
  ghost predicate Good(x: Externals, records: seq<KeyRecord>) {
    && (forall i | 0 <= i < |records| :: RecordError(x, records[i]).None?)
    && (forall i, j | 0 <= i < j < |records| :: records[i].keyId != records[j].keyId)
  }

  /** The ids of the records in a state, in document order. */
  function IdsIn(records: seq<KeyRecord>, state: KeyState): seq<string> {
    if records == [] then []
    else
      var n := |records| - 1;
      IdsIn(records[..n], state) + if records[n].state == state then [records[n].keyId] else []
  }

  ghost predicate HasRecord(records: seq<KeyRecord>, id: string, state: KeyState) {
    exists i :: 0 <= i < |records| && records[i].keyId == id && records[i].state == state
  }

  lemma {:induction false} IdsInExact(records: seq<KeyRecord>, id: string, state: KeyState)
    ensures id in IdsIn(records, state) <==> HasRecord(records, id, state)
  {
    if records != [] {
      var n := |records| - 1;
      IdsInExact(records[..n], id, state);
      if HasRecord(records, id, state) {
        var i :| 0 <= i < |records| && records[i].keyId == id && records[i].state == state;
        assert i < n ==> records[..n][i] == records[i];
      }
      if HasRecord(records[..n], id, state) {
        var i :| 0 <= i < n && records[..n][i].keyId == id && records[..n][i].state == state;
        assert records[i].keyId == id;
      }
    }
  }

  lemma {:induction false} IdsInDistinct(x: Externals, records: seq<KeyRecord>, state: KeyState)
    requires Good(x, records)
    ensures DistinctKeys(Self, IdsIn(records, state))
  {
    if records != [] {
      var n := |records| - 1;
      IdsInDistinct(x, records[..n], state);
      IdsInExact(records[..n], records[n].keyId, state);
    }
  }

  lemma {:induction false} IdsInCounted(records: seq<KeyRecord>)
    ensures |IdsIn(records, Active)| + |IdsIn(records, Retired)| == |records|
  {
    if records != [] {
      IdsInCounted(records[..|records| - 1]);
    }
  }

  predicate Readable(records: seq<KeyRecord>) {
    forall i | 0 <= i < |records| :: WellFormedHex(records[i].publicKeyHex)
  }

  function BundleOf(records: seq<KeyRecord>): map<string, Bytes>
    requires Readable(records)
  {
    if records == [] then map[]
    else
      var n := |records| - 1;
      assert WellFormedHex(records[n].publicKeyHex);
      BundleOf(records[..n])[records[n].keyId := Unhex(records[n].publicKeyHex)]
  }

  lemma {:induction false} BundleExact(records: seq<KeyRecord>, id: string)
    requires Readable(records)
    ensures id in BundleOf(records) <==> HasRecord(records, id, Active) || HasRecord(records, id, Retired)
  {
    if records != [] {
      var n := |records| - 1;
      BundleExact(records[..n], id);
      IdsInExact(records, id, Active);
      IdsInExact(records, id, Retired);
      IdsInExact(records[..n], id, Active);
      IdsInExact(records[..n], id, Retired);
    }
  }

  /** The two representations agree: each id list is sorted, and together they are the bundle. */
  ghost predicate Valid(keys: KeySet) {
    && StrictlySorted(Self, keys.activeKeyIds)
    && StrictlySorted(Self, keys.retiredKeyIds)
    && forall id :: id in keys.bundle <==> id in keys.activeKeyIds || id in keys.retiredKeyIds
  }

  function Representation(records: seq<KeyRecord>): KeySet
    requires Readable(records)
  {
    KeySet(BundleOf(records), SortBy(Self, IdsIn(records, Active)), SortBy(Self, IdsIn(records, Retired)))
  }

  /** For a good document the representations agree with each other and with the records, in number
      and for every id. */
  lemma RepresentationValid(x: Externals, records: seq<KeyRecord>)
    requires Good(x, records) && Readable(records)
    ensures var keys := Representation(records);
            && Valid(keys) && Len(keys) == |records|
            && forall id ::
                 && (id in keys.activeKeyIds <==> HasRecord(records, id, Active))
                 && (id in keys.retiredKeyIds <==> HasRecord(records, id, Retired))
  {
    IdsInDistinct(x, records, Active);
    IdsInDistinct(x, records, Retired);
    SortBySorts(Self, IdsIn(records, Active));
    SortBySorts(Self, IdsIn(records, Retired));
    IdsInCounted(records);
    forall id
      ensures id in IdsIn(records, Active) <==> HasRecord(records, id, Active)
      ensures id in IdsIn(records, Retired) <==> HasRecord(records, id, Retired)
      ensures id in BundleOf(records) <==> id in IdsIn(records, Active) || id in IdsIn(records, Retired)
    {
      IdsInExact(records, id, Active);
      IdsInExact(records, id, Retired);
      BundleExact(records, id);
    }
  }

  /** The bundle has for each record the key it names. */
  lemma {:induction false} BundleHasKeys(x: Externals, records: seq<KeyRecord>, i: nat)
    requires Good(x, records) && i < |records|
    requires Readable(records)
    ensures records[i].keyId in BundleOf(records)
    ensures BundleOf(records)[records[i].keyId] == Unhex(records[i].publicKeyHex)
    decreases |records|
  {
    if i < |records| - 1 {
      BundleHasKeys(x, records[..|records| - 1], i);
    }
  }

  method CheckRecord(x: Externals, record: KeyRecord) returns (error: Option<Error>, publicKey: Bytes)
    ensures error == RecordError(x, record)
    ensures error.None? ==> publicKey == Unhex(record.publicKeyHex)
  {
    publicKey := [];
    if record.keyId == "" {
      return Some(EmptyKeyId), publicKey;
    }
    var ok, decoded := DecodeHex(record.publicKeyHex, PUBLIC_KEY_BYTES);
    if !ok {
      return Some(InvalidPublicKeyHex(record.keyId)), publicKey;
    }
    publicKey := decoded[..];
    UnhexRoundTrip(publicKey);
    if !x.validPoint(publicKey) {
      return Some(InvalidPublicKey(record.keyId)), publicKey;
    }
    var canonical := CanonicalKeyId(x, publicKey);
    if record.keyId != canonical {
      return Some(NonCanonicalKeyId(record.keyId, canonical)), publicKey;
    }
    error := None;
  }

  /** The records before `index` are good; `error` is what is wrong with the one at it. */
  ghost predicate FirstFault(x: Externals, records: seq<KeyRecord>, index: nat, error: Error) {
    && index < |records| && Good(x, records[..index])
    && if RecordError(x, records[index]).Some? then RecordError(x, records[index]) == Some(error)
       else error == DuplicateKeyId(records[index].keyId) &&
            exists j :: 0 <= j < index && records[j].keyId == records[index].keyId
  }

  /** The records before index n, with one more. */
  lemma GoodSnoc(x: Externals, records: seq<KeyRecord>, n: nat)
    requires n < |records| && Good(x, records[..n]) && RecordError(x, records[n]).None?
    requires forall j | 0 <= j < n :: records[j].keyId != records[n].keyId
    ensures Good(x, records[..n + 1])
  {
    assert forall j | 0 <= j < n :: records[..n + 1][j] == records[..n][j] == records[j];
  }

  lemma ReadableSnoc(records: seq<KeyRecord>, n: nat)
    requires n < |records| && Readable(records[..n]) && WellFormedHex(records[n].publicKeyHex)
    ensures Readable(records[..n + 1])
  {
    assert forall j | 0 <= j < n :: records[..n + 1][j] == records[..n][j];
  }

  /** One more record enters the id list of its state and the bundle. */
  method Admit(records: seq<KeyRecord>, n: nat, publicKey: Bytes, active: seq<string>, retired: seq<string>,
               bundle: map<string, Bytes>)
    returns (active': seq<string>, retired': seq<string>, bundle': map<string, Bytes>)
    requires n < |records| && Readable(records[..n]) && Readable(records[..n + 1])
    requires WellFormedHex(records[n].publicKeyHex) && publicKey == Unhex(records[n].publicKeyHex)
    requires active == IdsIn(records[..n], Active) && retired == IdsIn(records[..n], Retired)
    requires bundle == BundleOf(records[..n])
    ensures active' == IdsIn(records[..n + 1], Active) && retired' == IdsIn(records[..n + 1], Retired)
    ensures bundle' == BundleOf(records[..n + 1])
  {
    assert records[..n + 1][..n] == records[..n];
    active', retired', bundle' := active, retired, bundle[records[n].keyId := publicKey];
    match records[n].state {
      case Active => active' := active + [records[n].keyId];
      case Retired => retired' := retired + [records[n].keyId];
    }
  }

  /** The ids that occur. */
  function Named(records: seq<KeyRecord>): set<string> {
    set i | 0 <= i < |records| :: records[i].keyId
  }

  lemma NamedSnoc(records: seq<KeyRecord>, n: nat)
    requires n < |records|
    ensures Named(records[..n + 1]) == Named(records[..n]) + {records[n].keyId}
  {
    var shorter, longer := records[..n], records[..n + 1];
    assert forall i | 0 <= i < n :: longer[i] == shorter[i];
    assert longer[n] == records[n];
    forall id | id in Named(shorter)
      ensures id in Named(longer)
    {
      var i :| 0 <= i < n && shorter[i].keyId == id;
      assert longer[i].keyId == id;
    }
  }

  lemma NamedHas(records: seq<KeyRecord>, n: nat, id: string)
    requires n <= |records|
    ensures id in Named(records[..n]) <==> exists j :: 0 <= j < n && records[j].keyId == id
  {
    if j :| 0 <= j < n && records[j].keyId == id {
      assert records[..n][j].keyId == id;
    }
  }

  /** The loop over the records: the first fault, or everything the key set is made of. */
  method ScanRecords(x: Externals, records: seq<KeyRecord>)
    returns (fault: Option<Error>, active: seq<string>, retired: seq<string>, bundle: map<string, Bytes>)
    ensures fault.None? ==> Good(x, records) && Readable(records)
    ensures fault.None? ==> active == IdsIn(records, Active) && retired == IdsIn(records, Retired)
    ensures fault.None? ==> bundle == BundleOf(records)
    ensures fault.Some? ==> exists i :: FirstFault(x, records, i, fault.value)
    ensures fault != Some(DuplicatePublicKey)
  {
    var keyIds: set<string> := {};
    var publicKeys: set<Bytes> := {};
    active, retired, bundle := [], [], map[];
    var index := 0;
    while index < |records|
      invariant 0 <= index <= |records|
      invariant Good(x, records[..index]) && Readable(records[..index])
      invariant keyIds == Named(records[..index])
      invariant forall key | key in publicKeys :: CanonicalKeyId(x, key) in keyIds
      invariant active == IdsIn(records[..index], Active) && retired == IdsIn(records[..index], Retired)
      invariant bundle == BundleOf(records[..index])
    {
      var record := records[index];
      var error, publicKey := CheckRecord(x, record);
      if error.Some? {
        assert FirstFault(x, records, index, error.value);
        return error, active, retired, bundle;
      }
      NamedHas(records, index, record.keyId);
      if record.keyId in keyIds {
        assert FirstFault(x, records, index, DuplicateKeyId(record.keyId));
        return Some(DuplicateKeyId(record.keyId)), active, retired, bundle;
      }
      if publicKey in publicKeys {
        return Some(DuplicatePublicKey), active, retired, bundle;
      }
      GoodSnoc(x, records, index);
      NamedSnoc(records, index);
      ReadableSnoc(records, index);
      active, retired, bundle := Admit(records, index, publicKey, active, retired, bundle);
      keyIds := keyIds + {record.keyId};
      publicKeys := publicKeys + {publicKey};
      index := index + 1;
    }
    assert records[..index] == records;
    fault := None;
  }

  method FromJson(x: Externals, parsed: Option<Document>) returns (r: Loaded)
    ensures r.Ok? ==>
              && parsed.Some? && parsed.value.version == TRUSTED_KEY_DOCUMENT_VERSION
              && Good(x, parsed.value.keys) && Readable(parsed.value.keys) && IdsIn(parsed.value.keys, Active) != []
              && r.keys == Representation(parsed.value.keys) && Valid(r.keys)
    // Every refusal names the first fault; that a public key occurs under two ids is never one.
    ensures r.Err? ==>
              || (r.error == InvalidDocument && parsed.None?)
              || (parsed.Some? && r.error == UnsupportedDocumentVersion(parsed.value.version) &&
                  parsed.value.version != TRUSTED_KEY_DOCUMENT_VERSION)
              || (parsed.Some? && r.error == EmptyBundle && parsed.value.keys == [])
              || (parsed.Some? && exists i :: FirstFault(x, parsed.value.keys, i, r.error))
              || (parsed.Some? && r.error == MissingActiveKey && IdsIn(parsed.value.keys, Active) == [])
    ensures r != Err(DuplicatePublicKey)
  {
    if parsed.None? {
      return Err(InvalidDocument);
    }
    var document := parsed.value;
    if document.version != TRUSTED_KEY_DOCUMENT_VERSION {
      return Err(UnsupportedDocumentVersion(document.version));
    }
    if document.keys == [] {
      return Err(EmptyBundle);
    }
    var fault, active, retired, bundle := ScanRecords(x, document.keys);
    if fault.Some? {
      return Err(fault.value);
    }
    if active == [] {
      return Err(MissingActiveKey);
    }
    RepresentationValid(x, document.keys);
    r := Ok(KeySet(bundle, SortBy(Self, active), SortBy(Self, retired)));
  }

  function Len(keys: KeySet): nat {
    |keys.activeKeyIds| + |keys.retiredKeyIds|
  }

  method ContainsKey(keys: KeySet, keyId: string) returns (found: bool)
    requires Valid(keys)
    ensures found <==> keyId in keys.bundle
  {
    found := BinarySearch(keys.activeKeyIds, keyId);
    if !found {
      found := BinarySearch(keys.retiredKeyIds, keyId);
    }
  }
}
