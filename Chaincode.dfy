/** The evidence chaincode's transactions, run the way the chaincode runs
    them: counter loops that probe the world state key by key, a loop that
    appends to a result list, and a single PutState per save. Each method is
    proved to compute the function of module WorldState that specifies it. */
module Chaincode {
  import opened Wrappers
  import opened Keys
  import opened WorldState

  class SmartContract {
    /** The world state reached through `ctx.GetStub()`. */
    var world: World

    /** Holds of every world state built by saves alone. */
    ghost predicate Valid()
      reads this
    {
      Consistent(world)
    }

    constructor ()
      ensures world == map[] && Valid()
    {
      world := map[];
    }

    /** getLatestVersion: try id_1, id_2, ... and stop at the first key that
        is not stored. */
    method GetLatestVersion(evidenceID: string) returns (latest: nat)
      ensures latest == LatestVersion(world, evidenceID)
    {
      var i: nat := 1;
      while Key(evidenceID, i) in world
        invariant 1 <= i
        invariant forall j :: 1 <= j < i ==> Key(evidenceID, j) in world
        invariant ProbeFrom(world, evidenceID, i) == LatestVersion(world, evidenceID)
        decreases world.Keys - KeysUpTo(evidenceID, i - 1)
      {
        KeysUpToHolds(evidenceID, i - 1, i);
        i := i + 1;
      }
      latest := i - 1;
    }

    /** SaveEvidence: store the arguments as a new record under
        id_(latest+1). */
    method SaveEvidence(evidenceID: string, timestamp: string, collector: string,
                        md5Hash: string, sha1Hash: string, sha256Hash: string, sha512Hash: string,
                        description: string)
      modifies this
      ensures world == Save(old(world), evidenceID, timestamp, collector,
                            md5Hash, sha1Hash, sha256Hash, sha512Hash, description)
      ensures old(Valid()) ==> Valid()
    {
      ghost var before := world;
      var latestVersion := GetLatestVersion(evidenceID);
      var newVersion := latestVersion + 1;
      var evidence := Evidence(evidenceID, newVersion, timestamp, collector,
                               md5Hash, sha1Hash, sha256Hash, sha512Hash, description);
      var evidenceKey := Key(evidenceID, newVersion);
      var evidenceJSON := Marshal(evidence);
      world := world[evidenceKey := evidenceJSON];
      if Consistent(before) {
        SavePreservesConsistent(before, evidenceID, timestamp, collector,
                                md5Hash, sha1Hash, sha256Hash, sha512Hash, description);
      }
    }

    /** QueryEvidence: read id_latest, or fail with "Evidence <id> does not
        exist" when nothing is stored there. */
    method QueryEvidence(evidenceID: string) returns (r: Result<Evidence, ChainError>)
      ensures r == Query(world, evidenceID)
    {
      var latestVersion := GetLatestVersion(evidenceID);
      var evidenceKey := Key(evidenceID, latestVersion);
      if evidenceKey !in world {
        return Err(NotExist(evidenceID));
      }
      match Unmarshal(world[evidenceKey]) {
        case None =>
          return Err(UnmarshalFailed(evidenceKey));
        case Some(evidence) =>
          return Ok(evidence);
      }
    }

    /** QueryEvidenceHistory: decode id_1, id_2, ... into a list until the
        first key that is not stored; any record that does not decode
        aborts the whole query. */
    method QueryEvidenceHistory(evidenceID: string) returns (r: Result<seq<Evidence>, ChainError>)
      ensures r == History(world, evidenceID)
    {
      var results: seq<Evidence> := [];
      var i: nat := 1;
      PrefixedNothing(HistoryFrom(world, evidenceID, 1));
      while Key(evidenceID, i) in world
        invariant 1 <= i
        invariant forall j :: 1 <= j < i ==> Key(evidenceID, j) in world
        invariant History(world, evidenceID) == Prefixed(results, HistoryFrom(world, evidenceID, i))
        decreases world.Keys - KeysUpTo(evidenceID, i - 1)
      {
        var evidenceKey := Key(evidenceID, i);
        KeysUpToHolds(evidenceID, i - 1, i);
        match Unmarshal(world[evidenceKey]) {
          case None =>
            return Err(UnmarshalFailed(evidenceKey));
          case Some(evidence) =>
            assert HistoryFrom(world, evidenceID, i)
                == Prefixed([evidence], HistoryFrom(world, evidenceID, i + 1));
            PrefixedTwice(results, [evidence], HistoryFrom(world, evidenceID, i + 1));
            results := results + [evidence];
        }
        i := i + 1;
      }
      assert results + [] == results;
      return Ok(results);
    }

    /** QueryAllEvidence: decode every stored key, in the order the range
        iterator yields them (`order`); any record that does not decode
        aborts the whole listing. */
    method QueryAllEvidence() returns (r: Result<seq<Evidence>, ChainError>, ghost order: seq<string>)
      ensures r.Ok? <==> forall k :: k in world ==> world[k].Encoded?
      ensures r.Ok? ==> IsListing(world, order, r.value)
      ensures r.Err? ==> r.error.UnmarshalFailed? && r.error.key in world
                         && world[r.error.key].Undecodable?
    {
      var results: seq<Evidence> := [];
      var remaining := world.Keys;
      order := [];
      while remaining != {}
        invariant remaining <= world.Keys
        invariant forall k :: k in world ==> (k in remaining <==> k !in order)
        invariant |order| == |results|
        invariant forall i, j :: 0 <= i < j < |order| ==> order[i] != order[j]
        invariant forall i :: 0 <= i < |order| ==> order[i] in world && world[order[i]] == Encoded(results[i])
        decreases remaining
      {
        var key :| key in remaining;
        match Unmarshal(world[key]) {
          case None =>
            return Err(UnmarshalFailed(key)), order;
          case Some(evidence) =>
            results := results + [evidence];
            order := order + [key];
        }
        remaining := remaining - {key};
      }
      return Ok(results), order;
    }
  }

  lemma PrefixedNothing(r: Result<seq<Evidence>, ChainError>)
    ensures Prefixed([], r) == r
  {
    if r.Ok? {
      assert [] + r.value == r.value;
    }
  }

  lemma PrefixedTwice(a: seq<Evidence>, b: seq<Evidence>, r: Result<seq<Evidence>, ChainError>)
    ensures Prefixed(a, Prefixed(b, r)) == Prefixed(a + b, r)
  {
    if r.Ok? {
      assert a + (b + r.value) == (a + b) + r.value;
    }
  }
}
