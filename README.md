# AzureBlobStorage, modelled in Dafny

This project models `AzureBlobStorage`, the Bot Builder `IStorage` implementation that keeps every
entity in its own blob of one Azure Storage container, and proves what it promises its callers.

The adapter does four things, and the model covers each:

- **Blob names.** A key is URL encoded and must then be a legal blob name. A null or empty key is refused.
- **Read.** `Read` looks up each key's blob. A missing blob is skipped without error. An `IStoreItem`
  gets the blob's current ETag. Each object is returned under its original key.
- **Write.** `Write` uploads each object under an If-Match condition derived from its `eTag`.
  This gives per-blob optimistic concurrency: an object read with ETag `T` can be written back with `T`
  only while nobody else has written that blob.
- **Delete.** `Delete` is delete-if-exists for each key.

The container itself is resolved and created lazily, on the first operation, and reused afterwards.

## Structure

- `Wrappers.dfy`: `Option` (None is a C# `null`), `Result` (a value or an exception) and `Outcome`
  (a `Task` that completes or faults).
- `Storage.dfy`: the stored values and the exceptions.
  - An `Entity` is either `Plain` (not an `IStoreItem`) or `StoreItem` with a nullable `eTag`.
  - `Error` lists the exceptions.
  - `WithETag` is what `Read` does to a deserialized object.
- `ETags.dfy`: the ETag the blob service reports for a blob version (`"0x…"`, hexadecimal).
  Distinct versions give distinct ETags, and no ETag is `"*"`.
- `BlobStore.dfy`: the Azure container, replaced by an in-memory store.
  - `Store` is the container's contents: a map from blob name to `Blob(content, version)`, plus the next version to mint.
  - `IfMatch` is the precondition of section 3.1 of RFC 7232, compared strongly.
  - `Put` and `Remove` are the two ways the container changes.
  - The class `BlobContainer` holds that state and offers the SDK calls the adapter makes:
    `CreateIfNotExists`, `OpenRead`, `OpenWrite` and `DeleteIfExists`.
- `Azure.dfy`: the adapter, in two layers.
  - Pure layer: `GetBlobName`, `CalculatedETag` (the eTag-to-condition rule), and one specification
    function for each batch operation (`ReadSpec`, `WriteSpec`, `DeleteSpec`).
  - Imperative layer: the class `AzureBlobStorage`. It holds the container name, the container, and the
    state of the lazy `Container` handle. Its `Read`, `Write` and `Delete` loop over the keys, and each
    method is proved to end in the state its specification function gives.
- `Properties.dfy`: lemmas about those specification functions, covering the read law, the write
  condition rule, the typed round trip, the concurrency law and the delete laws.
- `Scenarios.dfy`: a client that creates the adapter and runs write, read, write back, a stale write,
  a double delete and a null argument; and two adapters over one container, where a write through one
  makes the ETag the other read stale. Every outcome in it is proved from the contracts alone.

Modelling choices:

- **Fan-out.** `Task.WhenAll` is modelled as a loop over the keys in the order given. The C# code
  behaves differently per operation:
  - In `Read` and `Write`, the per-key lambda is `async`. An exception in `GetBlobName`, or a refused
    upload, faults only that key's task. Every other key is still processed, and the batch then rethrows
    the first fault in key order. So in `Write`, the changes before and after a failing one are still
    written, and none is undone.
  - In `Delete`, the lambda is synchronous. `GetBlobName` throws while `Task.WhenAll` enumerates the
    keys, so the keys after the first bad key are never attempted. The deletions already issued stay done.
- **Duplicates.** A batch may name the same key twice. The loop then applies the writes in order.
  This is why, of two writers carrying the same ETag, exactly one wins (`TwoWritersOneWins`).
- **Codec.** The codec is the identity (`TypeNameHandling.All` gives a typed round trip). The blob
  content is the entity exactly as passed to `Write`, stale `eTag` included. `Read` then overwrites
  the `eTag` with the blob's ETag.
- **Null eTag.** The code treats a null `eTag` like `"*"` and like an object that is not an
  `IStoreItem`: it sends no condition, so the write succeeds whether or not the blob exists. A null
  `eTag` does not mean "the blob must not exist".
- **Null keys array in `Delete`.** A null keys array raises `ArgumentNullException("keys")`, as on
  the other operations. It is not reported as an invalid key.
- **Abstract library calls.** `HttpUtility.UrlEncode`, `NameValidator.ValidateBlobName` and
  `NameValidator.ValidateContainerName` are the three fields of a `Naming` value. Because they are Dafny
  functions, the encoding is deterministic by construction.
- **Storage account.** The account is represented by the container it holds under `containerName`.
  `CloudStorageAccount`, the blob client and `GetContainerReference` are not modelled.

## Model

| member | source | states |
|---|---|---|
| `Storage.WithETag` | libraries/Microsoft.Bot.Builder.Azure/AzureBlobStorage.cs:131-138 | an `IStoreItem` read from a blob gets that blob's ETag and keeps every other property; any other object is returned as stored |
| `BlobStore.Put` | libraries/Microsoft.Bot.Builder.Azure/AzureBlobStorage.cs:173-181 | an upload succeeds iff its If-Match condition holds for the blob's current state; on success the blob holds exactly the given object under a newly minted version; on failure nothing changes and the error is a failed precondition; other blobs never change; the store invariant is kept |
| `BlobStore.Remove` | libraries/Microsoft.Bot.Builder.Azure/AzureBlobStorage.cs:104 | delete-if-exists: afterwards the blob is absent, every other blob is unchanged, no version is minted |
| `BlobStore.PutMintsFreshETag` | libraries/Microsoft.Bot.Builder.Azure/AzureBlobStorage.cs:25-27 | after a successful upload the blob's ETag differs from every ETag in the container before it, and is never `"*"` |
| `BlobStore.BlobContainer.CreateIfNotExists` | libraries/Microsoft.Bot.Builder.Azure/AzureBlobStorage.cs:70 | the container exists afterwards; an existing container keeps its blobs; reports whether it had to create one |
| `BlobStore.BlobContainer.OpenRead` | libraries/Microsoft.Bot.Builder.Azure/AzureBlobStorage.cs:127 | returns the stored blob when it exists, and a not-found error otherwise |
| `BlobStore.BlobContainer.OpenWrite` | libraries/Microsoft.Bot.Builder.Azure/AzureBlobStorage.cs:173-181 | a conditional upload into a missing container fails with not found; in an existing container it changes the state exactly as `Put` does |
| `BlobStore.BlobContainer.DeleteIfExists` | libraries/Microsoft.Bot.Builder.Azure/AzureBlobStorage.cs:104 | removes the blob as `Remove` does and reports whether one was there |
| `Azure.GetBlobName` | libraries/Microsoft.Bot.Builder.Azure/AzureBlobStorage.cs:80-87 | a null or empty key raises `ArgumentNull("key")`; any other key yields its URL encoding when that is a legal blob name, and `InvalidBlobName` of the encoding otherwise |
| `Azure.CalculatedETag` | libraries/Microsoft.Bot.Builder.Azure/AzureBlobStorage.cs:166-169 | no condition for an object that is not an `IStoreItem`, for a null eTag and for `"*"`; otherwise the condition is the object's own eTag, which is then never `"*"` |
| `Azure.ReadSpec` | libraries/Microsoft.Bot.Builder.Azure/AzureBlobStorage.cs:113-151 | the result of `Read`: it fails iff some key has no blob name, and on success holds only requested keys whose blob exists; `ReadReturnsStoredKeys` proves the rest (the first key's exception, every stored key present, each bound to its stamped object) |
| `Azure.WriteOne` | libraries/Microsoft.Bot.Builder.Azure/AzureBlobStorage.cs:164-182 | one task of `Write`: a key without a blob name faults with that exception and changes nothing; otherwise the upload succeeds iff the eTag-derived condition holds for the blob, a failure changes nothing, a success stores the object as given under a fresh version, and no other blob changes; `WriteOneRule` spells the condition out |
| `Azure.KeyError` | libraries/Microsoft.Bot.Builder.Azure/AzureBlobStorage.cs:119-122 | there is a key error iff some key of the batch has no blob name |
| `Azure.WriteSpec` | libraries/Microsoft.Bot.Builder.Azure/AzureBlobStorage.cs:163-182 | a batch of writes keeps the store invariant, never lowers the version counter, and leaves unchanged every blob outside `BlobNames` of its keys, the blob names its keys have |
| `Azure.DeleteSpec` | libraries/Microsoft.Bot.Builder.Azure/AzureBlobStorage.cs:99-105 | a batch of deletes keeps the store invariant and mints no version |
| `Azure.DeleteSpecStops` | libraries/Microsoft.Bot.Builder.Azure/AzureBlobStorage.cs:99-102 | once a key without a blob name has stopped `Delete`, the keys after it change nothing |
| `Azure.AzureBlobStorage.constructor` | libraries/Microsoft.Bot.Builder.Azure/AzureBlobStorage.cs:59-73 | a new adapter holds the given account and container name, and has not yet created the container |
| `Azure.AzureBlobStorage.Create` | libraries/Microsoft.Bot.Builder.Azure/AzureBlobStorage.cs:59-64 | a null account raises `ArgumentNull("storageAccount")`; otherwise an illegal container name raises `InvalidContainerName`; otherwise a fresh adapter whose container is not yet touched |
| `Azure.AzureBlobStorage.ContainerValue` | libraries/Microsoft.Bot.Builder.Azure/AzureBlobStorage.cs:66-72 | the first call runs `CreateIfNotExists`, so the container's own count of creation calls rises by exactly one; later calls change nothing and leave that count alone; every call returns the same container; no blob changes |
| `Azure.AzureBlobStorage.Read` | libraries/Microsoft.Bot.Builder.Azure/AzureBlobStorage.cs:113-118 | a null keys array raises `ArgumentNull("keys")` with nothing touched; otherwise the container is initialised (creation runs at most once over the adapter's life) and the result is `ReadSpec`; no blob changes |
| `Azure.AzureBlobStorage.ReadKeys` | libraries/Microsoft.Bot.Builder.Azure/AzureBlobStorage.cs:119-150 | the fan-out of `Read` returns the first key error if there is one, and otherwise the stored, ETag-stamped object of every key whose blob exists, under that key (`ReadSpec`) |
| `Azure.AzureBlobStorage.Write` | libraries/Microsoft.Bot.Builder.Azure/AzureBlobStorage.cs:158-183 | a null collection raises `ArgumentNull("changes")` with nothing touched; otherwise the container is initialised (creation runs at most once over the adapter's life) and ends in the state, with the outcome, that `WriteSpec` gives |
| `Azure.AzureBlobStorage.Delete` | libraries/Microsoft.Bot.Builder.Azure/AzureBlobStorage.cs:94-106 | a null keys array raises `ArgumentNull("keys")` with nothing touched; otherwise the container is initialised (creation runs at most once over the adapter's life) and ends in the state, with the outcome, that `DeleteSpec` gives |
| `AzureBlobStorageProperties.ReadReturnsStoredKeys` | libraries/Microsoft.Bot.Builder.Azure/AzureBlobStorage.cs:117-150 | `Read` fails iff some key has no blob name, and then with the first such key's exception; otherwise its keys are exactly the requested keys whose blob exists, each bound to the stored object with the blob's ETag applied |
| `AzureBlobStorageProperties.ReadOneKey` | libraries/Microsoft.Bot.Builder.Azure/AzureBlobStorage.cs:122-147 | reading one key gives its key error, or the empty map when the blob is missing, or the one stamped object |
| `AzureBlobStorageProperties.ReadSkipsMissingBlob` | libraries/Microsoft.Bot.Builder.Azure/AzureBlobStorage.cs:141-147 | reading a never-written key together with a stored one succeeds and returns only the stored key |
| `AzureBlobStorageProperties.WriteOneRule` | libraries/Microsoft.Bot.Builder.Azure/AzureBlobStorage.cs:166-176 | a write succeeds iff the object is not an `IStoreItem`, or its eTag is null or `"*"`, or the blob exists with exactly that ETag; a failed write changes nothing; a successful one stores the object as given |
| `AzureBlobStorageProperties.WildcardIsNotIfMatchStar` | libraries/Microsoft.Bot.Builder.Azure/AzureBlobStorage.cs:168-169 | `"*"` is dropped, so such a write is accepted when no blob exists, where `If-Match: *` would be refused |
| `AzureBlobStorageProperties.WriteSpecConcat` | libraries/Microsoft.Bot.Builder.Azure/AzureBlobStorage.cs:158-183 | two consecutive `Write` calls leave the same container as one batch of all their changes, and the pair fails with the first call's fault if it had one and otherwise with the second's |
| `AzureBlobStorageProperties.WritePassIffEveryWritePassed` | libraries/Microsoft.Bot.Builder.Azure/AzureBlobStorage.cs:163-182 | a batch completes without error iff every one of its changes succeeded at its turn, on the state the changes before it left |
| `AzureBlobStorageProperties.WriteStoresLastValue` | libraries/Microsoft.Bot.Builder.Azure/AzureBlobStorage.cs:163-182 | whatever the batch reports, a change that succeeded at its turn, with no later successful change to the same blob, leaves its object exactly as given in that blob: failures neither stop nor undo the other changes |
| `AzureBlobStorageProperties.FailedBatchKeepsEarlierWrite` | libraries/Microsoft.Bot.Builder.Azure/AzureBlobStorage.cs:163-182 | a batch is not atomic: when a later change has a null key, the batch fails with `ArgumentNull("key")` and yet the earlier unconditional write is in its blob |
| `AzureBlobStorageProperties.ReadAfterWrite` | libraries/Microsoft.Bot.Builder.Azure/AzureBlobStorage.cs:164-181 | typed round trip: after a successful write of `v` under `k`, the blob holds `v` as given, and `Read(k)` returns `v` with only its eTag set to the blob's new ETag |
| `AzureBlobStorageProperties.UntouchedOrRenewed` | libraries/Microsoft.Bot.Builder.Azure/AzureBlobStorage.cs:163-182 | after a batch, a blob that no successful write reached is unchanged, and one that some write reached carries a version at or above the version counter the store had before the batch (so, in a valid store, newer than every version it held) |
| `AzureBlobStorageProperties.WriteBackSucceedsIffUntouched` | libraries/Microsoft.Bot.Builder.Azure/AzureBlobStorage.cs:169-174 | a write carrying the ETag a blob had when read succeeds after other writes iff none of them succeeded on that blob |
| `AzureBlobStorageProperties.ReadModifyWriteOnce` | libraries/Microsoft.Bot.Builder.Azure/AzureBlobStorage.cs:25-27 | an `IStoreItem` read with tag `T` can be written back once with `T`; a second write still carrying `T` fails with a failed precondition and changes nothing |
| `AzureBlobStorageProperties.TwoWritersOneWins` | libraries/Microsoft.Bot.Builder.Azure/AzureBlobStorage.cs:163-176 | of two writes in one batch carrying the same current ETag, exactly one wins: in the model's key order the first succeeds, the second fails, and the blob keeps the first object |
| `AzureBlobStorageProperties.DeleteRemovesExactly` | libraries/Microsoft.Bot.Builder.Azure/AzureBlobStorage.cs:98-105 | `Delete` removes exactly the blobs named by the keys before the first key without a blob name, keeps every other blob, and fails with that key's exception if there is one |
| `AzureBlobStorageProperties.DeleteIdempotent` | libraries/Microsoft.Bot.Builder.Azure/AzureBlobStorage.cs:104 | deleting the same keys twice leaves the same container, with the same outcome, as deleting them once |
| `AzureBlobStorageProperties.DeleteMissingIsNoError` | libraries/Microsoft.Bot.Builder.Azure/AzureBlobStorage.cs:104 | deleting a key that has no blob succeeds and changes nothing |

## Left out

- Azure SDK I/O is not modelled: `CloudStorageAccount.Parse` (the connection-string constructor), the
  blob client, and the read and write streams. The in-memory `BlobContainer` stands in for all of them;
  this is foreign network I/O.
- Storage failures other than 404 and 412 are not modelled: transport errors, throttling, and a read
  that fails for another reason. In the model, `Read` never fails except on a key.
- The unwrapping of `StorageException` and `AggregateException` to check for 404 is not modelled;
  `OpenRead` reports a missing blob as a not-found error directly.
- A failed container creation is not modelled, because it is foreign I/O. Note that `Lazy` caches
  whatever its factory produced, so a faulted creation task would be returned again, not retried.
- `BlobStore.BlobContainer.OpenWrite`: an If-Match condition on a missing blob is reported as a failed
  precondition (section 3.1 of RFC 7232). The SDK may surface it as 404. Either way the write fails and
  nothing changes.
- `Azure.CalculatedETag`: an `IStoreItem` whose eTag is the empty string becomes the condition `""`,
  which no issued ETag matches, so the model refuses every such write. Whether the storage SDK sends an
  empty If-Match or drops it is SDK behaviour outside this model.
- Weak ETags (`W/` prefix) are not modelled: the store only issues strong ones, so If-Match is plain equality.
- Newtonsoft.Json with `TypeNameHandling.All` is not modelled, because it is a foreign serializer.
  Entities are opaque values and the codec is the identity. The JSON byte format and type-name embedding
  are outside the model.
- `HttpUtility.UrlEncode` and the `NameValidator` rules are given functions; their character tables
  are library behaviour that the adapter does not define.
- Concurrency is not modelled: the parallelism of `Task.WhenAll`, the thread safety of `Lazy(…, true)`,
  and async/await scheduling are replaced by a sequential loop in key order. Interleavings of two
  concurrent batches, from one adapter or from several adapters over the same container, appear only as
  one batch followed by another. Inside a batch, which of two uploads to the same blob commits first is
  fixed to key order.
- `tests/Microsoft.Bot.Builder.Azure.Tests/TableStorageTests.cs` is not modelled. It tests a different
  class (`AzureTableStorage`), probes an emulator process, and delegates to a base class outside this model.
- `samples/AlarmBot-Cards/Responses/ShowAlarmsResponses.cs` is not modelled. It is Adaptive Card UI glue
  with culture-dependent date formatting.
