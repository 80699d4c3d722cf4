/** The blob-backed implementation of `IStorage`: each entity is kept in one
    blob of a single container, named after its encoded key, and concurrency
    is managed per blob through ETags. */
module Azure {
  import opened Wrappers
  import opened Storage
  import opened BlobStore

  /** The library functions the adapter calls on names: `HttpUtility.UrlEncode`
      and the two `NameValidator` checks. Their character tables are Azure's
      and .NET's, so the model takes them as given functions. */
  datatype Naming = Naming(
    urlEncode: string -> string,
    isValidBlobName: string -> bool,
    isValidContainerName: string -> bool)

  /** One entry of the `changes` given to `Write`: a key (None is null) and
      the object to store under it. */
  datatype Change = Change(key: Option<string>, value: Entity)

  /** `GetBlobName`: a null or empty key is refused, any other key is URL
      encoded and the encoding must be a legal blob name. */
  function GetBlobName(naming: Naming, key: Option<string>): (r: Result<string, Error>)
    ensures r.Success? <==> key.Some? && key.value != "" && naming.isValidBlobName(naming.urlEncode(key.value))
    ensures r.Success? ==> r.value == naming.urlEncode(key.value)
    ensures (key.None? || key.value == "") ==> r == Failure(ArgumentNull("key"))
    ensures r.Failure? && key.Some? && key.value != "" ==> r.error == InvalidBlobName(naming.urlEncode(key.value))
  {
    if key.None? || key.value == "" then
      Failure(ArgumentNull("key"))
    else
      var blobName := naming.urlEncode(key.value);
      if naming.isValidBlobName(blobName) then Success(blobName) else Failure(InvalidBlobName(blobName))
  }

  /** The If-Match condition `Write` sends for an object: none for an object
      that is not an `IStoreItem`, for a null eTag and for the wildcard "*";
      the object's own eTag otherwise. */
  function CalculatedETag(value: Entity): (condition: Option<string>)
    ensures condition.None? <==> value.Plain? || value.eTag.None? || value.eTag == Some("*")
    ensures condition.Some? ==> value.StoreItem? && value.eTag == condition && condition.value != "*"
  {
    match value
    case Plain(_) => None
    case StoreItem(_, eTag) => if eTag == Some("*") then None else eTag
  }

  /** The number of leading keys that have a blob name. */
  function ValidKeyPrefix(naming: Naming, keys: seq<Option<string>>): (n: nat)
    ensures n <= |keys|
    ensures forall i :: 0 <= i < n ==> GetBlobName(naming, keys[i]).Success?
    ensures n < |keys| ==> GetBlobName(naming, keys[n]).Failure?
  {
    if keys == [] || GetBlobName(naming, keys[0]).Failure? then 0
    else 1 + ValidKeyPrefix(naming, keys[1..])
  }

  /** The exception of the first key, in order, that has no blob name. */
  function KeyError(naming: Naming, keys: seq<Option<string>>): (r: Option<Error>)
    ensures r.None? <==> forall i :: 0 <= i < |keys| ==> GetBlobName(naming, keys[i]).Success?
  {
    var n := ValidKeyPrefix(naming, keys);
    if n == |keys| then None else Some(GetBlobName(naming, keys[n]).error)
  }

  /** The non-null keys among `keys`. */
  function KeyStrings(keys: seq<Option<string>>): set<string> {
    set i | 0 <= i < |keys| && keys[i].Some? :: keys[i].value
  }

  /** Whether key `k` has a blob name and a blob of that name exists. */
  predicate Stored(naming: Naming, blobs: map<string, Blob>, k: string) {
    GetBlobName(naming, Some(k)).Success? && naming.urlEncode(k) in blobs
  }

  /** What `Read` collects: each key whose blob exists, under the key itself,
      bound to the stored object with the blob's ETag applied. */
  function Found(naming: Naming, blobs: map<string, Blob>, keys: seq<Option<string>>): map<string, Entity> {
    map k | k in KeyStrings(keys) && Stored(naming, blobs, k) ::
      WithETag(blobs[naming.urlEncode(k)].content, blobs[naming.urlEncode(k)].ETag())
  }

  /** The result of `Read(keys)` on a container holding `blobs`. */
  function ReadSpec(naming: Naming, blobs: map<string, Blob>, keys: seq<Option<string>>): (r: Result<map<string, Entity>, Error>)
    ensures r.Failure? <==> exists i :: 0 <= i < |keys| && GetBlobName(naming, keys[i]).Failure?
    ensures r.Success? ==> forall k :: k in r.value ==> Some(k) in keys && Stored(naming, blobs, k)
  {
    match KeyError(naming, keys)
    case Some(e) => Failure(e)
    case None => Success(Found(naming, blobs, keys))
  }

  /** One task of `Write`'s fan-out: the upload of one change. */
  function WriteOne(naming: Naming, s: Store, change: Change): (r: (Store, Outcome<Error>))
    ensures GetBlobName(naming, change.key).Failure? ==> r == (s, Fail(GetBlobName(naming, change.key).error))
    ensures r.1.Pass? <==> GetBlobName(naming, change.key).Success? &&
                           IfMatch(CalculatedETag(change.value), Get(s, GetBlobName(naming, change.key).value))
    ensures r.1.Fail? ==> r.0 == s
    ensures r.1.Pass? ==> Get(r.0, GetBlobName(naming, change.key).value) == Some(Blob(change.value, s.clock))
    ensures forall n :: GetBlobName(naming, change.key) != Success(n) ==> Get(r.0, n) == Get(s, n)
    ensures ValidStore(s) ==> ValidStore(r.0)
  {
    match GetBlobName(naming, change.key)
    case Failure(e) => (s, Fail(e))
    case Success(blobName) => Put(s, blobName, CalculatedETag(change.value), change.value)
  }

  /** The blob names of the keys that have one. */
  function BlobNames(naming: Naming, keys: seq<Option<string>>): set<string> {
    set i | 0 <= i < |keys| && GetBlobName(naming, keys[i]).Success? :: GetBlobName(naming, keys[i]).value
  }

  /** The keys of `changes`, in order. */
  function KeysOf(changes: seq<Change>): (keys: seq<Option<string>>)
    ensures |keys| == |changes|
    ensures forall i :: 0 <= i < |changes| ==> keys[i] == changes[i].key
  {
    seq(|changes|, i requires 0 <= i < |changes| => changes[i].key)
  }

  /** `Write(changes)`: every change is attempted, in order; a change that
      fails leaves its blob alone and does not undo or stop the others; the
      batch reports the first failure. */
  function WriteSpec(naming: Naming, s: Store, changes: seq<Change>): (r: (Store, Outcome<Error>))
    ensures ValidStore(s) ==> ValidStore(r.0)
    ensures r.0.clock >= s.clock
    ensures forall n :: n !in BlobNames(naming, KeysOf(changes)) ==> Get(r.0, n) == Get(s, n)
    decreases |changes|
  {
    if changes == [] then (s, Pass)
    else
      var front := changes[..|changes| - 1];
      var before := WriteSpec(naming, s, front);
      var last := WriteOne(naming, before.0, changes[|changes| - 1]);
      assert forall i :: 0 <= i < |front| ==> KeysOf(front)[i] == KeysOf(changes)[i];
      assert forall n :: n in BlobNames(naming, KeysOf(front)) ==> n in BlobNames(naming, KeysOf(changes));
      (last.0, if before.1.Fail? then before.1 else last.1)
  }

  /** `Delete(keys)`: keys are deleted in order, a missing blob being no
      error; the first key without a blob name stops the batch, and the
      deletions before it stay done. */
  function DeleteSpec(naming: Naming, s: Store, keys: seq<Option<string>>): (r: (Store, Outcome<Error>))
    ensures ValidStore(s) ==> ValidStore(r.0)
    ensures r.0.clock == s.clock
    decreases |keys|
  {
    if keys == [] then (s, Pass)
    else
      var before := DeleteSpec(naming, s, keys[..|keys| - 1]);
      if before.1.Fail? then before
      else match GetBlobName(naming, keys[|keys| - 1])
        case Failure(e) => (before.0, Fail(e))
        case Success(blobName) => (Remove(before.0, blobName), Pass)
  }

  /** Once `Delete` has failed on a prefix, the later keys change nothing. */
  lemma {:induction false} DeleteSpecStops(naming: Naming, s: Store, keys: seq<Option<string>>, i: nat)
    requires i <= |keys|
    requires DeleteSpec(naming, s, keys[..i]).1.Fail?
    ensures DeleteSpec(naming, s, keys) == DeleteSpec(naming, s, keys[..i])
    decreases |keys| - i
  {
    if i < |keys| {
      assert keys[..i + 1][..i] == keys[..i];
      DeleteSpecStops(naming, s, keys, i + 1);
    } else {
      assert keys[..i] == keys;
    }
  }

  /** `ValidKeyPrefix` is the only count with its two properties. */
  lemma ValidKeyPrefixUnique(naming: Naming, keys: seq<Option<string>>, n: nat)
    requires n <= |keys|
    requires forall i :: 0 <= i < n ==> GetBlobName(naming, keys[i]).Success?
    requires n < |keys| ==> GetBlobName(naming, keys[n]).Failure?
    ensures ValidKeyPrefix(naming, keys) == n
  {
  }

  /** Appending a key keeps an earlier key error, or else adds its own. */
  lemma KeyErrorSnoc(naming: Naming, keys: seq<Option<string>>, key: Option<string>)
    ensures KeyError(naming, keys + [key]) ==
      if KeyError(naming, keys).Some? then KeyError(naming, keys)
      else if GetBlobName(naming, key).Failure? then Some(GetBlobName(naming, key).error)
      else None
  {
    var ks := keys + [key];
    var n := ValidKeyPrefix(naming, keys);
    if n < |keys| {
      ValidKeyPrefixUnique(naming, ks, n);
    } else if GetBlobName(naming, key).Failure? {
      ValidKeyPrefixUnique(naming, ks, n);
    } else {
      ValidKeyPrefixUnique(naming, ks, n + 1);
    }
  }

  lemma KeyStringsSnoc(keys: seq<Option<string>>, key: Option<string>)
    ensures KeyStrings(keys + [key]) == KeyStrings(keys) + (if key.Some? then {key.value} else {})
  {
    var ks := keys + [key];
    forall k | k in KeyStrings(ks)
      ensures k in KeyStrings(keys) || key == Some(k)
    {
      var i :| 0 <= i < |ks| && ks[i].Some? && ks[i].value == k;
      if i < |keys| {
        assert keys[i] == ks[i];
      }
    }
    forall k | k in KeyStrings(keys)
      ensures k in KeyStrings(ks)
    {
      var i :| 0 <= i < |keys| && keys[i].Some? && keys[i].value == k;
      assert ks[i] == keys[i];
    }
    if key.Some? {
      assert ks[|keys|] == key;
    }
  }

  /** Appending a key adds its stored object, if it has one. */
  lemma FoundSnoc(naming: Naming, blobs: map<string, Blob>, keys: seq<Option<string>>, key: Option<string>)
    ensures Found(naming, blobs, keys + [key]) ==
      if key.Some? && Stored(naming, blobs, key.value) then
        Found(naming, blobs, keys)[key.value :=
          WithETag(blobs[naming.urlEncode(key.value)].content, blobs[naming.urlEncode(key.value)].ETag())]
      else Found(naming, blobs, keys)
  {
    KeyStringsSnoc(keys, key);
  }

  /** The adapter: a container name checked at construction and the
      container handle, resolved and created on first use. */
  class AzureBlobStorage {
    const naming: Naming
    const containerName: string
    /** The container the account holds under `containerName`. */
    const container: BlobContainer
    /** Whether the lazy `Container` has produced its value. */
    var initialized: bool

    ghost predicate Valid()
      reads this, container
    {
      && container.Valid()
      && (initialized ==> container.present)
      && naming.isValidContainerName(containerName)
    }

    constructor (storageAccount: BlobContainer, containerName: string, naming: Naming)
      requires storageAccount.Valid()
      requires naming.isValidContainerName(containerName)
      ensures Valid() && !initialized
      ensures container == storageAccount && this.containerName == containerName && this.naming == naming
    {
      this.naming := naming;
      this.containerName := containerName;
      this.container := storageAccount;
      this.initialized := false;
    }

    /** The constructor with its argument checks: a null account, then an
        illegal container name, is refused; nothing is created yet. */
    static method Create(storageAccount: BlobContainer?, containerName: string, naming: Naming)
      returns (r: Result<AzureBlobStorage, Error>)
      requires storageAccount != null ==> storageAccount.Valid()
      ensures storageAccount == null ==> r == Failure(ArgumentNull("storageAccount"))
      ensures storageAccount != null && !naming.isValidContainerName(containerName) ==>
                r == Failure(InvalidContainerName(containerName))
      ensures r.Success? <==> storageAccount != null && naming.isValidContainerName(containerName)
      ensures r.Success? ==> fresh(r.value) && r.value.Valid() && !r.value.initialized
      ensures r.Success? ==> r.value.container == storageAccount && r.value.containerName == containerName
      ensures r.Success? ==> r.value.naming == naming
    {
      if storageAccount == null {
        return Failure(ArgumentNull("storageAccount"));
      }
      if !naming.isValidContainerName(containerName) {
        return Failure(InvalidContainerName(containerName));
      }
      var adapter := new AzureBlobStorage(storageAccount, containerName, naming);
      r := Success(adapter);
    }

    /** `Container.Value`: the first call creates the container if it does
        not exist; every later call returns the same handle and creates
        nothing. No blob changes either way. */
    method ContainerValue() returns (c: BlobContainer)
      requires Valid()
      modifies this`initialized, container`present, container`createCalls
      ensures Valid() && initialized && c == container
      ensures container.createCalls == old(container.createCalls) + (if old(initialized) then 0 else 1)
      ensures container.State() == old(container.State())
      ensures old(initialized) ==> unchanged(this, container)
    {
      if !initialized {
        var _ := container.CreateIfNotExists();
        initialized := true;
      }
      c := container;
    }

    /** `Read(keys)`: a null array is refused before the container is
        touched; otherwise the result of `ReadSpec`, and no blob changes. */
    method Read(keys: Option<seq<Option<string>>>) returns (r: Result<map<string, Entity>, Error>)
      requires Valid()
      modifies this`initialized, container`present, container`createCalls
      ensures Valid()
      ensures container.State() == old(container.State())
      ensures container.createCalls == old(container.createCalls) + (if old(initialized) || keys.None? then 0 else 1)
      ensures keys.None? ==> r == Failure(ArgumentNull("keys")) && unchanged(this, container)
      ensures keys.Some? ==> initialized && r == ReadSpec(naming, container.blobs, keys.value)
    {
      if keys.None? {
        return Failure(ArgumentNull("keys"));
      }
      var blobContainer := ContainerValue();
      r := ReadKeys(blobContainer, keys.value);
    }

    /** The fan-out of `Read`: each key is looked up, a missing blob is
        skipped, an `IStoreItem` gets its blob's ETag, and the object is
        collected under its key; a key without a blob name faults its own
        task, and the batch then reports the first such fault. */
    method ReadKeys(blobContainer: BlobContainer, keys: seq<Option<string>>) returns (r: Result<map<string, Entity>, Error>)
      ensures r == ReadSpec(naming, blobContainer.blobs, keys)
    {
      var storeItems: map<string, Entity> := map[];
      var failure: Option<Error> := None;
      for i := 0 to |keys|
        invariant failure == KeyError(naming, keys[..i])
        invariant storeItems == Found(naming, blobContainer.blobs, keys[..i])
      {
        assert keys[..i + 1] == keys[..i] + [keys[i]];
        KeyErrorSnoc(naming, keys[..i], keys[i]);
        FoundSnoc(naming, blobContainer.blobs, keys[..i], keys[i]);
        var blobName := GetBlobName(naming, keys[i]);
        if blobName.Failure? {
          if failure.None? {
            failure := Some(blobName.error);
          }
        } else {
          var blob := blobContainer.OpenRead(blobName.value);
          if blob.Success? {
            storeItems := storeItems[keys[i].value := WithETag(blob.value.content, blob.value.ETag())];
          }
        }
      }
      assert keys[..|keys|] == keys;
      r := if failure.Some? then Failure(failure.value) else Success(storeItems);
    }

    /** `Write(changes)`: a null collection is refused before the container
        is touched; otherwise the container ends as `WriteSpec` says. */
    method Write(changes: Option<seq<Change>>) returns (r: Outcome<Error>)
      requires Valid()
      modifies this`initialized, container
      ensures Valid()
      ensures container.createCalls == old(container.createCalls) + (if old(initialized) || changes.None? then 0 else 1)
      ensures changes.None? ==> r == Fail(ArgumentNull("changes")) && unchanged(this, container)
      ensures changes.Some? ==> initialized && (container.State(), r) == WriteSpec(naming, old(container.State()), changes.value)
    {
      if changes.None? {
        return Fail(ArgumentNull("changes"));
      }
      var blobContainer := ContainerValue();
      ghost var s0 := container.State();
      var entries := changes.value;
      r := Pass;
      for i := 0 to |entries|
        invariant Valid() && initialized && blobContainer == container
        invariant container.createCalls == old(container.createCalls) + (if old(initialized) then 0 else 1)
        invariant (container.State(), r) == WriteSpec(naming, s0, entries[..i])
      {
        assert entries[..i + 1][..i] == entries[..i];
        var change := entries[i];
        var calculatedETag := CalculatedETag(change.value);
        var blobName := GetBlobName(naming, change.key);
        var outcome;
        if blobName.Failure? {
          outcome := Fail(blobName.error);
        } else {
          outcome := blobContainer.OpenWrite(blobName.value, calculatedETag, change.value);
        }
        if r.Pass? {
          r := outcome;
        }
      }
      assert entries[..|entries|] == entries;
    }

    /** `Delete(keys)`: a null array is refused before the container is
        touched; otherwise the container ends as `DeleteSpec` says. */
    method Delete(keys: Option<seq<Option<string>>>) returns (r: Outcome<Error>)
      requires Valid()
      modifies this`initialized, container
      ensures Valid()
      ensures container.createCalls == old(container.createCalls) + (if old(initialized) || keys.None? then 0 else 1)
      ensures keys.None? ==> r == Fail(ArgumentNull("keys")) && unchanged(this, container)
      ensures keys.Some? ==> initialized && (container.State(), r) == DeleteSpec(naming, old(container.State()), keys.value)
    {
      if keys.None? {
        return Fail(ArgumentNull("keys"));
      }
      var blobContainer := ContainerValue();
      ghost var s0 := container.State();
      var names := keys.value;
      r := Pass;
      var i := 0;
      while i < |names| && r.Pass?
        invariant 0 <= i <= |names|
        invariant Valid() && initialized && blobContainer == container
        invariant container.createCalls == old(container.createCalls) + (if old(initialized) then 0 else 1)
        invariant (container.State(), r) == DeleteSpec(naming, s0, names[..i])
      {
        assert names[..i + 1][..i] == names[..i];
        var blobName := GetBlobName(naming, names[i]);
        if blobName.Failure? {
          r := Fail(blobName.error);
        } else {
          var _ := blobContainer.DeleteIfExists(blobName.value);
        }
        i := i + 1;
      }
      if r.Fail? {
        DeleteSpecStops(naming, s0, names, i);
      } else {
        assert names[..i] == names;
      }
    }
  }
}
