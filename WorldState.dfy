/** The evidence chaincode's world state and what each of its transactions
    computes from it, as pure functions, with the properties the chaincode
    relies on. The class in module Chaincode runs the same operations with
    the chaincode's own loops and is proved against these functions. */
module WorldState {
  import opened Wrappers
  import opened Keys

  /** One version of one evidence item, field for field the chaincode's
      `Evidence` struct. The four digests are opaque strings. */
  datatype Evidence = Evidence(
    evidenceID: string,
    version: int,
    timestamp: string,
    collector: string,
    md5Hash: string,
    sha1Hash: string,
    sha256Hash: string,
    sha512Hash: string,
    description: string)

  /** The bytes stored under a key: the JSON encoding of a record, or bytes
      that do not decode as one. */
  datatype Payload = Encoded(evidence: Evidence) | Undecodable

  datatype ChainError =
    | NotExist(evidenceID: string)   // "Evidence <evidenceID> does not exist"
    | UnmarshalFailed(key: string)   // json.Unmarshal rejected the bytes under key

  /** The key-value store behind `GetState`/`PutState`. */
  type World = map<string, Payload>

  /** json.Marshal of an Evidence value. */
  function Marshal(e: Evidence): (p: Payload)
    ensures Unmarshal(p) == Some(e)
  {
    Encoded(e)
  }

  /** json.Unmarshal into an Evidence value. */
  function Unmarshal(p: Payload): (r: Option<Evidence>)
    ensures r.None? <==> p.Undecodable?
  {
    match p
    case Encoded(e) => Some(e)
    case Undecodable => None
  }

  // ---------------------------------------------------------------------
  // getLatestVersion: probe id_1, id_2, ... up to the first missing key

  /** The probe started at version `i`, once versions 1..i-1 were found. */
  function ProbeFrom(w: World, id: string, i: nat): (n: nat)
    requires 1 <= i
    requires forall j :: 1 <= j < i ==> Key(id, j) in w
    ensures i - 1 <= n
    decreases w.Keys - KeysUpTo(id, i - 1)
  {
    if Key(id, i) !in w then i - 1
    else
      KeysUpToHolds(id, i - 1, i);
      ProbeFrom(w, id, i + 1)
  }

  /** The probe from version `i` stops at the first version n+1 that is not
      stored, having found all of 1..n. */
  lemma {:induction false} ProbeFromStops(w: World, id: string, i: nat)
    requires 1 <= i
    requires forall j :: 1 <= j < i ==> Key(id, j) in w
    ensures forall j :: 1 <= j <= ProbeFrom(w, id, i) ==> Key(id, j) in w
    ensures Key(id, ProbeFrom(w, id, i) + 1) !in w
    decreases ProbeFrom(w, id, i) + 1 - i
  {
    if Key(id, i) in w {
      ProbeFromStops(w, id, i + 1);
    }
  }

  /** The latest version of `id`: keys id_1..id_n are all stored and
      id_(n+1) is not; 0 when id_1 is not stored. */
  function LatestVersion(w: World, id: string): (n: nat)
    ensures forall j :: 1 <= j <= n ==> Key(id, j) in w
    ensures Key(id, n + 1) !in w
  {
    ProbeFromStops(w, id, 1);
    ProbeFrom(w, id, 1)
  }

  /** Those two facts pin the latest version down: any n with them is it. */
  lemma LatestVersionUnique(w: World, id: string, n: nat)
    requires forall j :: 1 <= j <= n ==> Key(id, j) in w
    requires Key(id, n + 1) !in w
    ensures LatestVersion(w, id) == n
  {
  }

  // ---------------------------------------------------------------------
  // QueryEvidenceHistory: decode id_1, id_2, ... up to the first missing key

  /** `prefix` in front of a successful listing; errors pass through. */
  function Prefixed(prefix: seq<Evidence>, r: Result<seq<Evidence>, ChainError>): Result<seq<Evidence>, ChainError>
  {
    match r
    case Ok(rest) => Ok(prefix + rest)
    case Err(e) => Err(e)
  }

  /** The history loop started at version `i`. The first version that does
      not decode aborts the whole listing. */
  function HistoryFrom(w: World, id: string, i: nat): (r: Result<seq<Evidence>, ChainError>)
    requires 1 <= i
    requires forall j :: 1 <= j < i ==> Key(id, j) in w
    ensures r.Err? ==> r.error.UnmarshalFailed?
    decreases ProbeFrom(w, id, i) + 1 - i
  {
    var key := Key(id, i);
    if key !in w then Ok([])
    else
      match Unmarshal(w[key])
      case None => Err(UnmarshalFailed(key))
      case Some(e) => Prefixed([e], HistoryFrom(w, id, i + 1))
  }

  /** The history loop from version `i` succeeds exactly when every version
      the probe finds from i on decodes. */
  lemma {:induction false} HistoryFromDecodes(w: World, id: string, i: nat)
    requires 1 <= i
    requires forall j :: 1 <= j < i ==> Key(id, j) in w
    ensures HistoryFrom(w, id, i).Ok?
            <==> forall j :: i <= j <= ProbeFrom(w, id, i) ==> Key(id, j) in w && w[Key(id, j)].Encoded?
    decreases ProbeFrom(w, id, i) + 1 - i
  {
    if Key(id, i) in w {
      HistoryFromDecodes(w, id, i + 1);
    }
  }

  /** A successful history loop from version `i` lists one record per
      version the probe finds from i on. */
  lemma {:induction false} HistoryFromLength(w: World, id: string, i: nat)
    requires 1 <= i
    requires forall j :: 1 <= j < i ==> Key(id, j) in w
    requires HistoryFrom(w, id, i).Ok?
    ensures |HistoryFrom(w, id, i).value| == ProbeFrom(w, id, i) - (i - 1)
    decreases ProbeFrom(w, id, i) + 1 - i
  {
    if Key(id, i) in w {
      HistoryFromLength(w, id, i + 1);
    }
  }

  /** The record the history loop lists at position j - i is the one stored
      under id_j. */
  lemma {:induction false} HistoryFromAt(w: World, id: string, i: nat, j: nat)
    requires 1 <= i
    requires forall j :: 1 <= j < i ==> Key(id, j) in w
    requires HistoryFrom(w, id, i).Ok? && i <= j < i + |HistoryFrom(w, id, i).value|
    ensures Key(id, j) in w && w[Key(id, j)] == Encoded(HistoryFrom(w, id, i).value[j - i])
    decreases j - i
  {
    if i < j {
      HistoryFromAt(w, id, i + 1, j);
    }
  }

  /** What QueryEvidenceHistory returns: the records stored under
      id_1..id_latest, in that order; an empty list for an unknown id; an
      error, and no partial list, when any of them does not decode. */
  function History(w: World, id: string): (r: Result<seq<Evidence>, ChainError>)
    ensures r.Ok? <==> forall j :: 1 <= j <= LatestVersion(w, id) ==> w[Key(id, j)].Encoded?
    ensures r.Ok? ==> |r.value| == LatestVersion(w, id)
    ensures LatestVersion(w, id) == 0 ==> r == Ok([])
  {
    HistoryFromDecodes(w, id, 1);
    var r := HistoryFrom(w, id, 1);
    if r.Ok? then HistoryFromLength(w, id, 1); r else r
  }

  /** Position k of a decoded history is the record stored under id_(k+1). */
  lemma HistoryAt(w: World, id: string, k: nat)
    requires History(w, id).Ok? && k < |History(w, id).value|
    ensures Key(id, k + 1) in w && w[Key(id, k + 1)] == Encoded(History(w, id).value[k])
  {
    HistoryFromAt(w, id, 1, k + 1);
  }

  /** Two world states agree on key k: both lack it, or both hold the same
      bytes under it. */
  ghost predicate SameAt(w: World, w': World, k: string)
  {
    (k in w <==> k in w') && (k in w ==> w[k] == w'[k])
  }

  /** The probe and the history loop read nothing but the keys id_i,
      id_(i+1), ...: two states that agree on those give the same latest
      version and the same history. */
  lemma {:induction false} HistoryFromAgree(w: World, w': World, id: string, i: nat)
    requires 1 <= i
    requires forall j :: 1 <= j < i ==> Key(id, j) in w
    requires forall j: nat :: 1 <= j ==> SameAt(w, w', Key(id, j))
    ensures forall j :: 1 <= j < i ==> Key(id, j) in w'
    ensures ProbeFrom(w', id, i) == ProbeFrom(w, id, i)
    ensures HistoryFrom(w', id, i) == HistoryFrom(w, id, i)
    decreases ProbeFrom(w, id, i) + 1 - i
  {
    assert forall j :: 1 <= j < i ==> SameAt(w, w', Key(id, j));
    assert SameAt(w, w', Key(id, i));
    if Key(id, i) in w {
      HistoryFromAgree(w, w', id, i + 1);
    }
  }

  // ---------------------------------------------------------------------
  // QueryEvidence: decode id_latest

  /** What QueryEvidence returns: the record under id_latest, the error
      "Evidence <id> does not exist" when no record is stored there, or the
      decode error when the bytes there do not decode. */
  function Query(w: World, id: string): (r: Result<Evidence, ChainError>)
    ensures r == Err(NotExist(id)) <==> Key(id, LatestVersion(w, id)) !in w
    ensures r.Ok? ==> w[Key(id, LatestVersion(w, id))] == Encoded(r.value)
    ensures Key(id, LatestVersion(w, id)) in w && w[Key(id, LatestVersion(w, id))].Encoded?
            ==> r == Ok(w[Key(id, LatestVersion(w, id))].evidence)
    ensures Key(id, LatestVersion(w, id)) in w && w[Key(id, LatestVersion(w, id))].Undecodable?
            ==> r == Err(UnmarshalFailed(Key(id, LatestVersion(w, id))))
  {
    var key := Key(id, LatestVersion(w, id));
    if key !in w then Err(NotExist(id))
    else match Unmarshal(w[key])
      case None => Err(UnmarshalFailed(key))
      case Some(e) => Ok(e)
  }

  /** When the history is not empty, its last record is what QueryEvidence
      returns. */
  lemma HistoryLastIsQuery(w: World, id: string)
    requires History(w, id).Ok? && |History(w, id).value| > 0
    ensures Query(w, id) == Ok(History(w, id).value[|History(w, id).value| - 1])
  {
    HistoryAt(w, id, |History(w, id).value| - 1);
  }

  // ---------------------------------------------------------------------
  // SaveEvidence: write one new version under id_(latest+1)

  /** The record SaveEvidence writes: its arguments verbatim, at the next
      version. */
  function NewVersion(w: World, id: string, timestamp: string, collector: string,
                      md5Hash: string, sha1Hash: string, sha256Hash: string, sha512Hash: string,
                      description: string): (e: Evidence)
    ensures e.version == LatestVersion(w, id) + 1
  {
    Evidence(id, LatestVersion(w, id) + 1, timestamp, collector,
             md5Hash, sha1Hash, sha256Hash, sha512Hash, description)
  }

  /** The world state after SaveEvidence: exactly one key is added, one that
      was not stored before, and every stored key keeps its value. */
  function Save(w: World, id: string, timestamp: string, collector: string,
                md5Hash: string, sha1Hash: string, sha256Hash: string, sha512Hash: string,
                description: string): (w': World)
    ensures Key(id, LatestVersion(w, id) + 1) !in w
    ensures w'.Keys == w.Keys + {Key(id, LatestVersion(w, id) + 1)}
    ensures |w'| == |w| + 1
    ensures forall k :: k in w ==> w'[k] == w[k]
    ensures w'[Key(id, LatestVersion(w, id) + 1)]
            == Marshal(NewVersion(w, id, timestamp, collector, md5Hash, sha1Hash, sha256Hash, sha512Hash, description))
  {
    var e := NewVersion(w, id, timestamp, collector, md5Hash, sha1Hash, sha256Hash, sha512Hash, description);
    w[Key(id, e.version) := Marshal(e)]
  }

  // ---------------------------------------------------------------------
  // The invariant of a world state built by SaveEvidence alone

  /** The record under key `k` decodes, has a version of at least 1, is
      stored under its own id and version, and its previous version is
      stored too. */
  ghost predicate WellPlaced(w: World, k: string)
    requires k in w
  {
    && w[k].Encoded?
    && w[k].evidence.version >= 1
    && k == Key(w[k].evidence.evidenceID, w[k].evidence.version)
    && (w[k].evidence.version > 1 ==> Key(w[k].evidence.evidenceID, w[k].evidence.version - 1) in w)
  }

  ghost predicate Consistent(w: World)
  {
    forall k {:trigger WellPlaced(w, k)} :: k in w ==> WellPlaced(w, k)
  }

  /** In a consistent state the record stored under id_v is version v of id,
      and versions 1..v of id are all stored. */
  lemma {:induction false} StoredBelow(w: World, id: string, v: nat)
    requires Consistent(w) && Key(id, v) in w
    ensures w[Key(id, v)].Encoded?
    ensures w[Key(id, v)].evidence.evidenceID == id && w[Key(id, v)].evidence.version == v
    ensures v >= 1 && forall j :: 1 <= j <= v ==> Key(id, j) in w
  {
    assert WellPlaced(w, Key(id, v));
    var e := w[Key(id, v)].evidence;
    KeyInjective(id, v, e.evidenceID, e.version);
    if v > 1 {
      StoredBelow(w, id, v - 1);
    }
  }

  /** In a consistent state the versions stored for an id are exactly
      1..LatestVersion, each holding the record of that version. */
  lemma StoredVersions(w: World, id: string, v: nat)
    requires Consistent(w)
    ensures Key(id, v) in w <==> 1 <= v <= LatestVersion(w, id)
    ensures Key(id, v) in w ==> w[Key(id, v)].Encoded? && w[Key(id, v)].evidence.evidenceID == id
                                && w[Key(id, v)].evidence.version == v
  {
    if Key(id, v) in w {
      StoredBelow(w, id, v);
    }
  }

  /** A save keeps the world state consistent. */
  lemma SavePreservesConsistent(w: World, id: string, timestamp: string, collector: string,
                                md5Hash: string, sha1Hash: string, sha256Hash: string, sha512Hash: string,
                                description: string)
    requires Consistent(w)
    ensures Consistent(Save(w, id, timestamp, collector, md5Hash, sha1Hash, sha256Hash, sha512Hash, description))
  {
    var w' := Save(w, id, timestamp, collector, md5Hash, sha1Hash, sha256Hash, sha512Hash, description);
    var n := LatestVersion(w, id);
    forall k | k in w'
      ensures WellPlaced(w', k)
    {
      if k in w {
        assert WellPlaced(w, k);
      } else {
        assert k == Key(id, n + 1);
      }
    }
  }

  /** A save raises the latest version of its id by exactly one. */
  lemma SaveRaisesLatest(w: World, id: string, timestamp: string, collector: string,
                         md5Hash: string, sha1Hash: string, sha256Hash: string, sha512Hash: string,
                         description: string)
    requires Consistent(w)
    ensures LatestVersion(Save(w, id, timestamp, collector, md5Hash, sha1Hash, sha256Hash, sha512Hash, description), id)
            == LatestVersion(w, id) + 1
  {
    var w' := Save(w, id, timestamp, collector, md5Hash, sha1Hash, sha256Hash, sha512Hash, description);
    var n := LatestVersion(w, id);
    KeysDiffer(id, n + 2, id, n + 1);
    if Key(id, n + 2) in w {
      StoredBelow(w, id, n + 2);
      assert false;
    }
    LatestVersionUnique(w', id, n + 1);
  }

  /** A save leaves the latest version of every other id unchanged. */
  lemma SaveKeepsOtherLatest(w: World, id: string, timestamp: string, collector: string,
                             md5Hash: string, sha1Hash: string, sha256Hash: string, sha512Hash: string,
                             description: string, other: string)
    requires other != id
    ensures LatestVersion(Save(w, id, timestamp, collector, md5Hash, sha1Hash, sha256Hash, sha512Hash, description), other)
            == LatestVersion(w, other)
  {
    var w' := Save(w, id, timestamp, collector, md5Hash, sha1Hash, sha256Hash, sha512Hash, description);
    forall j: nat | 1 <= j
      ensures SameAt(w, w', Key(other, j))
    {
      KeysDiffer(other, j, id, LatestVersion(w, id) + 1);
    }
    HistoryFromAgree(w, w', other, 1);
  }

  /** A query right after a save returns the saved arguments verbatim, at
      the next version. */
  lemma SaveThenQuery(w: World, id: string, timestamp: string, collector: string,
                      md5Hash: string, sha1Hash: string, sha256Hash: string, sha512Hash: string,
                      description: string)
    requires Consistent(w)
    ensures Query(Save(w, id, timestamp, collector, md5Hash, sha1Hash, sha256Hash, sha512Hash, description), id)
            == Ok(Evidence(id, LatestVersion(w, id) + 1, timestamp, collector,
                           md5Hash, sha1Hash, sha256Hash, sha512Hash, description))
  {
    SaveRaisesLatest(w, id, timestamp, collector, md5Hash, sha1Hash, sha256Hash, sha512Hash, description);
  }

  /** In a consistent state QueryEvidence fails with "does not exist" exactly
      when nothing is stored for the id, and otherwise returns the record of
      the highest version. */
  lemma QueryLatest(w: World, id: string)
    requires Consistent(w)
    ensures Query(w, id) == Err(NotExist(id)) <==> LatestVersion(w, id) == 0
    ensures Query(w, id).Ok? <==> LatestVersion(w, id) >= 1
    ensures Query(w, id).Ok? ==> Query(w, id).value.evidenceID == id
                                 && Query(w, id).value.version == LatestVersion(w, id)
  {
    StoredVersions(w, id, LatestVersion(w, id));
  }

  /** In a consistent state the history of an id decodes and lists versions
      1..latest of that id, in ascending order. */
  lemma HistoryDecodes(w: World, id: string)
    requires Consistent(w)
    ensures History(w, id).Ok?
  {
    forall j | 1 <= j <= LatestVersion(w, id)
      ensures w[Key(id, j)].Encoded?
    {
      StoredVersions(w, id, j);
    }
  }

  lemma HistoryAscending(w: World, id: string)
    requires Consistent(w)
    ensures History(w, id).Ok?
    ensures |History(w, id).value| == LatestVersion(w, id)
    ensures forall k :: 0 <= k < |History(w, id).value| ==>
              History(w, id).value[k].evidenceID == id && History(w, id).value[k].version == k + 1
  {
    HistoryDecodes(w, id);
    var h := History(w, id).value;
    forall k | 0 <= k < |h|
      ensures h[k].evidenceID == id && h[k].version == k + 1
    {
      HistoryAt(w, id, k);
      StoredVersions(w, id, k + 1);
    }
  }

  /** A save appends exactly its own record to its id's history: earlier
      versions are never rewritten. */
  lemma SaveAppendsHistory(w: World, id: string, timestamp: string, collector: string,
                           md5Hash: string, sha1Hash: string, sha256Hash: string, sha512Hash: string,
                           description: string)
    requires Consistent(w)
    ensures History(w, id).Ok?
    ensures History(Save(w, id, timestamp, collector, md5Hash, sha1Hash, sha256Hash, sha512Hash, description), id)
            == Ok(History(w, id).value
                  + [NewVersion(w, id, timestamp, collector, md5Hash, sha1Hash, sha256Hash, sha512Hash, description)])
  {
    var w' := Save(w, id, timestamp, collector, md5Hash, sha1Hash, sha256Hash, sha512Hash, description);
    var e := NewVersion(w, id, timestamp, collector, md5Hash, sha1Hash, sha256Hash, sha512Hash, description);
    var n := LatestVersion(w, id);
    HistoryDecodes(w, id);
    assert LatestVersion(w', id) == n + 1 by {
      SaveRaisesLatest(w, id, timestamp, collector, md5Hash, sha1Hash, sha256Hash, sha512Hash, description);
    }
    assert History(w', id).Ok? by {
      forall j | 1 <= j <= n + 1
        ensures w'[Key(id, j)].Encoded?
      {
        if j <= n {
          assert w'[Key(id, j)] == w[Key(id, j)];
        }
      }
    }
    HistoryExtends(w, w', id, e);
  }

  /** A state that keeps every stored key and adds the next version of `id`
      has that version's record appended to the history of `id`. */
  lemma HistoryExtends(w: World, w': World, id: string, e: Evidence)
    requires History(w, id).Ok? && History(w', id).Ok?
    requires |History(w', id).value| == |History(w, id).value| + 1
    requires forall k :: k in w ==> k in w' && w'[k] == w[k]
    requires Key(id, |History(w, id).value| + 1) in w'
    requires w'[Key(id, |History(w, id).value| + 1)] == Encoded(e)
    ensures History(w', id).value == History(w, id).value + [e]
  {
    var h, h' := History(w, id).value, History(w', id).value;
    forall k | 0 <= k < |h'|
      ensures h'[k] == (h + [e])[k]
    {
      HistoryAt(w', id, k);
      if k < |h| {
        HistoryAt(w, id, k);
      }
    }
  }

  /** A save leaves the history of every other id unchanged. */
  lemma SaveKeepsOtherHistory(w: World, id: string, timestamp: string, collector: string,
                              md5Hash: string, sha1Hash: string, sha256Hash: string, sha512Hash: string,
                              description: string, other: string)
    requires other != id
    ensures History(Save(w, id, timestamp, collector, md5Hash, sha1Hash, sha256Hash, sha512Hash, description), other)
            == History(w, other)
  {
    var w' := Save(w, id, timestamp, collector, md5Hash, sha1Hash, sha256Hash, sha512Hash, description);
    forall j: nat | 1 <= j
      ensures SameAt(w, w', Key(other, j))
    {
      KeysDiffer(other, j, id, LatestVersion(w, id) + 1);
    }
    HistoryFromAgree(w, w', other, 1);
  }

  // ---------------------------------------------------------------------
  // QueryAllEvidence: decode every stored key

  /** `records` lists the world state in the key order `order`: every
      stored key exactly once, each with the record stored under it. */
  ghost predicate IsListing(w: World, order: seq<string>, records: seq<Evidence>)
  {
    && |order| == |records|
    && (forall i, j :: 0 <= i < j < |order| ==> order[i] != order[j])
    && (forall k :: k in w <==> k in order)
    && (forall i :: 0 <= i < |order| ==> order[i] in w && w[order[i]] == Encoded(records[i]))
  }

  /** The full listing holds every version of every id, not only the latest
      one. */
  lemma ListingHasEveryVersion(w: World, order: seq<string>, records: seq<Evidence>, id: string, v: nat)
    requires Consistent(w) && IsListing(w, order, records)
    requires 1 <= v <= LatestVersion(w, id)
    ensures exists i :: 0 <= i < |records| && records[i].evidenceID == id && records[i].version == v
  {
    StoredVersions(w, id, v);
    var i :| 0 <= i < |order| && order[i] == Key(id, v);
    assert w[order[i]] == Encoded(records[i]);
  }

  /** Every record of the full listing is the version of its id's history
      that its own version number names. */
  lemma ListingRecordsAreHistory(w: World, order: seq<string>, records: seq<Evidence>, i: nat)
    requires Consistent(w) && IsListing(w, order, records)
    requires i < |records|
    ensures 1 <= records[i].version <= LatestVersion(w, records[i].evidenceID)
    ensures History(w, records[i].evidenceID).Ok?
    ensures History(w, records[i].evidenceID).value[records[i].version - 1] == records[i]
  {
    var e := records[i];
    assert WellPlaced(w, order[i]);
    StoredVersions(w, e.evidenceID, e.version);
    HistoryAscending(w, e.evidenceID);
    HistoryAt(w, e.evidenceID, e.version - 1);
  }
}
