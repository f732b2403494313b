# Versioned evidence ledger — a Dafny model

This project models the part of the HLDF evidence-custody system that has real
behaviour. There are two pieces.

**The evidence chaincode** (`chaincode/go/evidence.go`). It is a Hyperledger Fabric smart
contract that keeps evidence records in the world state, a key-value store. Each
submission of an evidence item becomes a new version, stored under the key
`evidenceID + "_" + decimal(version)`. Versions count up from 1.

- `getLatestVersion` probes `id_1`, `id_2`, … and stops at the first missing key.
- `SaveEvidence` writes one new record under `id_(latest+1)`.
- `QueryEvidence` reads `id_latest`.
- `QueryEvidenceHistory` decodes `id_1 … id_latest` into a list.
- `QueryAllEvidence` decodes every stored key.

The model is the class `Chaincode.SmartContract`. It holds the world state as a
`map<string, Payload>`. Its methods keep the chaincode's own loops. Each method is
proved to compute a pure function of module `WorldState`:

- `LatestVersion`, `Save`, `Query` and `History` specify single transactions.
- `IsListing` specifies the full listing.

The lemmas of `WorldState` state what those functions guarantee. The central one
is `Consistent`, the invariant of every state built by saves alone. In such a state
the versions stored for an item are exactly `1..latest`. A save raises that item's
latest version by one and appends exactly its own record to the item's history. It
changes nothing for any other item. The key scheme is injective (`Keys`), so two
items never overwrite each other's versions.

**The frontend's envelope decision.** Three React components run it:
`QueryEvidence.js`, `QueryEvidenceHistory.js` and `QueryAllEvidence.js`. Each one
checks the HTTP status, then the envelope's `code === "200"`, then
`JSON.parse(result)`. It then sets a data cell and an error cell. Each component is
a class with those two fields. Its handler method is proved to leave the state given
by `Envelope.Outcome`, whatever the state was before. An error text is never left
next to data.

JSON encoding is the identity on the `Evidence` datatype. A stored value is
either `Encoded(evidence)` or `Undecodable`, so the decode-failure paths of the
chaincode are kept. The four digests (MD5, SHA-1, SHA-256, SHA-512) are opaque
strings that the model passes through unchanged.

Some behaviour of the code is easy to misread, and the model keeps it as written:

- Versions start at 1, not 0.
- `QueryAllEvidence` returns every stored version of every item, not only the
  latest one (`ListingHasEveryVersion`).
- `QueryEvidenceHistory` on an unknown item returns an empty list. Unlike a
  NotFound-style API, it does not fail (`History`).
- The frontend has no typed error kinds. It keeps one error string, chosen as
  `Envelope.Outcome` states.
- A stored record is never rejected as incomplete. Go's `json.Unmarshal` fills a
  missing field with its zero value, so only bytes that are not a JSON object of
  the record's shape fail to decode (`Undecodable`).

## Model

| member | source | states |
|---|---|---|
| Keys.Decimal | chaincode/go/evidence.go:50 | `%d` of a version is a non-empty run of digits, with no leading zero unless the version is 0; it is one character long exactly for versions below 10 |
| Keys.DecimalRoundTrip | chaincode/go/evidence.go:50 | reading the decimal rendering back gives the version: `%d` loses nothing |
| Keys.Key | chaincode/go/evidence.go:50 | the key `id + "_" + %d(version)` under which version `version` of `id` is stored; what it guarantees is stated by KeyParts and KeyInjective |
| Keys.KeyParts | chaincode/go/evidence.go:50 | the key `fmt.Sprintf("%s_%d", id, version)` (`Keys.Key`) reads back as the ID, then `_`, then digits only, whose value is the version |
| Keys.KeyInjective | chaincode/go/evidence.go:50 | `"%s_%d"` is injective: equal keys mean equal evidence IDs and equal versions, whatever underscores the IDs contain |
| Keys.KeysDiffer | chaincode/go/evidence.go:50 | a different ID or a different version gives a different key |
| WorldState.Marshal | chaincode/go/evidence.go:52-55 | decoding what SaveEvidence stores gives back the record |
| WorldState.Unmarshal | chaincode/go/evidence.go:76-80 | decoding fails exactly on bytes that are not an encoded record |
| WorldState.ProbeFrom | chaincode/go/evidence.go:141-150 | the probe from version i never returns less than i-1, the versions it has already found |
| WorldState.ProbeFromStops | chaincode/go/evidence.go:141-150 | the probe from version i returns an n with keys id_1..id_n all stored and id_(n+1) not stored |
| WorldState.LatestVersion | chaincode/go/evidence.go:140-151 | the latest version n has id_1..id_n all stored and id_(n+1) absent; it is 0 when id_1 is absent |
| WorldState.LatestVersionUnique | chaincode/go/evidence.go:140-151 | any n with id_1..id_n stored and id_(n+1) absent is the latest version |
| WorldState.HistoryFrom | chaincode/go/evidence.go:90-107 | the history loop fails only with an unmarshal error |
| WorldState.HistoryFromDecodes | chaincode/go/evidence.go:90-107 | the history loop from version i succeeds exactly when every version the probe finds from i on is stored and decodes |
| WorldState.HistoryFromLength | chaincode/go/evidence.go:90-107 | a successful history loop from version i lists exactly one record per version the probe finds from i on |
| WorldState.HistoryFromAt | chaincode/go/evidence.go:90-107 | position j-i of the history loop from i is the record stored under id_j |
| WorldState.History | chaincode/go/evidence.go:86-110 | QueryEvidenceHistory succeeds exactly when versions 1..latest all decode; it then returns exactly latest records; for an unknown ID it returns an empty list and not an error |
| WorldState.HistoryAt | chaincode/go/evidence.go:100-106 | element k of the history is the record stored under id_(k+1), so the order is ascending by version |
| WorldState.HistoryFromAgree | chaincode/go/evidence.go:86-110 | the probe and the history read only the keys id_1, id_2, …: states that agree on them give the same latest version and history |
| WorldState.Query | chaincode/go/evidence.go:61-83 | QueryEvidence fails with "Evidence id does not exist" exactly when nothing is stored under id_latest; when something is stored there it returns that record if the bytes decode and the unmarshal error naming the key if they do not |
| WorldState.HistoryLastIsQuery | chaincode/go/evidence.go:62-110 | the last element of a non-empty history is what QueryEvidence returns |
| WorldState.NewVersion | chaincode/go/evidence.go:34-47 | the saved record has version latest+1 |
| WorldState.Save | chaincode/go/evidence.go:27-58 | a save adds exactly one key, id_(latest+1), which was not stored before, holding the encoded new record; it keeps every stored key's value, and the store grows by one |
| WorldState.StoredBelow | chaincode/go/evidence.go:34-57 | in a state built by saves, the record under id_v is version v of id and versions 1..v are all stored |
| WorldState.StoredVersions | chaincode/go/evidence.go:140-151 | in a state built by saves, id_v is stored exactly when 1 <= v <= latest, and it holds version v of id |
| WorldState.SavePreservesConsistent | chaincode/go/evidence.go:27-57 | a save keeps the invariant of states built by saves |
| WorldState.SaveRaisesLatest | chaincode/go/evidence.go:29-50 | a save raises its ID's latest version by exactly one |
| WorldState.SaveKeepsOtherLatest | chaincode/go/evidence.go:29-50 | a save leaves every other ID's latest version unchanged |
| WorldState.SaveThenQuery | chaincode/go/evidence.go:27-83 | a query right after a save returns the saved arguments verbatim, at version latest+1 |
| WorldState.QueryLatest | chaincode/go/evidence.go:61-83 | in a state built by saves, QueryEvidence fails with "does not exist" exactly when the ID has no versions; otherwise it returns the record of the highest version, for that ID |
| WorldState.HistoryDecodes | chaincode/go/evidence.go:86-110 | in a state built by saves, QueryEvidenceHistory never fails |
| WorldState.HistoryAscending | chaincode/go/evidence.go:86-110 | in a state built by saves, the history decodes and lists versions 1..latest of the ID, in ascending order |
| WorldState.SaveAppendsHistory | chaincode/go/evidence.go:27-110 | a save appends exactly its own record to its ID's history; earlier versions are never rewritten |
| WorldState.HistoryExtends | chaincode/go/evidence.go:86-110 | a state that keeps every stored record and adds the next version of an ID has the history of the old state with that record appended |
| WorldState.SaveKeepsOtherHistory | chaincode/go/evidence.go:27-110 | a save leaves every other ID's history unchanged |
| WorldState.ListingHasEveryVersion | chaincode/go/evidence.go:113-136 | the full listing holds every version of every ID, not only the latest |
| WorldState.ListingRecordsAreHistory | chaincode/go/evidence.go:113-136 | every record of the full listing is the entry of its ID's history at its own version |
| Chaincode.SmartContract.GetLatestVersion | chaincode/go/evidence.go:140-151 | the probing loop returns LatestVersion of the current state |
| Chaincode.SmartContract.SaveEvidence | chaincode/go/evidence.go:27-58 | the new state is Save of the old one, and a state built by saves stays so |
| Chaincode.SmartContract.QueryEvidence | chaincode/go/evidence.go:61-83 | the method returns Query of the current state |
| Chaincode.SmartContract.QueryEvidenceHistory | chaincode/go/evidence.go:86-110 | the appending loop returns History of the current state, with no partial list on a decode failure |
| Chaincode.SmartContract.QueryAllEvidence | chaincode/go/evidence.go:113-136 | the listing succeeds exactly when every stored value decodes; it then lists every stored key exactly once with its record; an error names a key whose bytes do not decode |
| Envelope.MessageOr | frontend/src/components/QueryEvidence.js:23 | `message \|\| 'Unexpected response code'`: a non-empty message is shown, otherwise the fallback, so the result is never empty |
| Envelope.Outcome | frontend/src/components/QueryEvidence.js:12-34 | for a reply whose parsed result is not null, data is kept exactly when the error is `''`, which happens exactly when status is 200, code is "200" and `result` parses; then the data is the parsed value; the other branches give null data with 'Unexpected response status', the envelope message or 'Unexpected response code', or the catch text |
| QueryEvidenceView.QueryEvidence.constructor | frontend/src/components/QueryEvidence.js:7-8 | the component starts with a null result and no error |
| QueryEvidenceView.QueryEvidence.HandleQuery | frontend/src/components/QueryEvidence.js:10-35 | the result and error cells end as Outcome of the reply, with 'Error fetching evidence' as the catch text; no stale result survives |
| QueryEvidenceHistoryView.QueryEvidenceHistory.constructor | frontend/src/components/QueryEvidenceHistory.js:7-8 | the component starts with a null history and no error |
| QueryEvidenceHistoryView.QueryEvidenceHistory.HandleQueryHistory | frontend/src/components/QueryEvidenceHistory.js:10-33 | the history and error cells end as Outcome of the reply, with 'Error fetching evidence history' as the catch text |
| QueryAllEvidenceView.QueryAllEvidence.constructor | frontend/src/components/QueryAllEvidence.js:6-7 | the component starts with a null listing and no error |
| QueryAllEvidenceView.QueryAllEvidence.HandleQueryAll | frontend/src/components/QueryAllEvidence.js:9-31 | the listing and error cells end as Outcome of the reply, with 'Error fetching all evidence' as the catch text |

## Left out

- Ledger read and write failures are not modelled. These are the `err` results of `GetState` and `PutState`, which come from the Fabric peer. The error paths at chaincode/go/evidence.go:30-31, 63-64, 69-70, 93-94 and 116-117 depend on them, and so do the iterator errors at 122-124.
- The `json.Marshal` error path (chaincode/go/evidence.go:53-55) is not modelled. Marshalling a struct of strings and an int cannot fail.
- The key order of `GetStateByRange` is not modelled. The listing is proved for an arbitrary order of the stored keys, given as a ghost out-parameter.
- Fabric's transaction semantics are not modelled. This covers endorsement, consensus, concurrent saves that race on the same latest version, and read-your-writes inside one transaction. Each transaction is one atomic step on the map.
- Go's `int` is modelled as an unbounded integer. A version counter cannot overflow in practice.
- The text of the decode error is not modelled. `UnmarshalFailed(key)` names the key whose bytes did not decode; the JSON library's message is not kept.
- The backend (backend/SDK.go) is not part of this model. This covers HTTP routing, CORS, temp files, the Fabric SDK calls and `log.Fatalf`. Its argument order at backend/SDK.go:143-152 matches the chaincode's parameter order at chaincode/go/evidence.go:27. Because `log.Fatalf` ends the backend on a chaincode error, the frontend sees that error as a failed request, which is its catch branch.
- Digest computation is not modelled. `calculateHashes` calls library MD5/SHA code, so the four digests are opaque strings.
- The network layer is abstracted. Axios is the `Fetch` input: it either threw or answered. The model does not say which statuses axios rejects; by default, statuses outside 200-299 go to the catch branch.
- JavaScript truthiness is modelled only for a missing or empty `message`. Non-string messages are not modelled.
- React rendering is not modelled, nor are frontend/src/components/SaveEvidence.js and frontend/src/App.js. These are tables, tooltips, form assembly and layout. The chaincode `main` is not modelled either.
- The frontend model assumes that `JSON.parse(result)` never yields `null`. If it did, the components would keep a null data cell with an empty error. The chaincode never produces such a reply: `QueryEvidence` returns either a record or an error (chaincode/go/evidence.go:72-82), and both list queries start from an empty, non-nil slice (chaincode/go/evidence.go:87 and 114), which encodes as `[]`.
- Each handler run is one atomic step taken after its `await` resolves. The handlers are `async`, and the form can be submitted again while a request is pending. If an earlier request resolves last, its reply is the one whose cells remain. So "no stale result survives" holds per reply, not across overlapping requests.
