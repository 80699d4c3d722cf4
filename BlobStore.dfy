/** The Azure blob container the adapter talks to, replaced by an in-memory
    store: a map from blob name to the stored entity and its version. Every
    successful upload gives the blob the next version of a per-container
    counter, so its ETag differs from the ETag of every blob the container
    holds at that moment. */
module BlobStore {
  import opened Wrappers
  import opened Storage
  import ETags

  /** A stored blob: the serialized entity and the version its ETag names. */
  datatype Blob = Blob(content: Entity, version: nat) {
    function ETag(): string {
      ETags.Mint(version)
    }
  }

  /** The contents of one container and the next version it will mint. */
  datatype Store = Store(blobs: map<string, Blob>, clock: nat)

  /** Every version in use was minted before `clock`. */
  ghost predicate ValidStore(s: Store) {
    forall name :: name in s.blobs ==> s.blobs[name].version < s.clock
  }

  function Get(s: Store, name: string): Option<Blob> {
    if name in s.blobs then Some(s.blobs[name]) else None
  }

  /** The If-Match precondition of section 3.1 of RFC 7232 with strong
      comparison. `None` is a request without the header, which always
      passes; `Some("*")` passes when the blob exists; any other tag passes
      when the blob exists and its current ETag is that tag. */
  predicate IfMatch(condition: Option<string>, current: Option<Blob>) {
    match condition
    case None => true
    case Some(t) => current.Some? && (t == "*" || current.value.ETag() == t)
  }

  /** An upload of `content` to blob `name` under `condition`. */
  function Put(s: Store, name: string, condition: Option<string>, content: Entity): (r: (Store, Outcome<Error>))
    ensures r.1.Pass? <==> IfMatch(condition, Get(s, name))
    ensures r.1.Fail? ==> r == (s, Fail(PreconditionFailed))
    ensures r.1.Pass? ==> Get(r.0, name) == Some(Blob(content, s.clock)) && r.0.clock == s.clock + 1
    ensures forall n :: n != name ==> Get(r.0, n) == Get(s, n)
    ensures ValidStore(s) ==> ValidStore(r.0)
  {
    if IfMatch(condition, Get(s, name)) then
      (Store(s.blobs[name := Blob(content, s.clock)], s.clock + 1), Pass)
    else
      (s, Fail(PreconditionFailed))
  }

  /** Delete-if-exists of blob `name`. */
  function Remove(s: Store, name: string): (r: Store)
    ensures Get(r, name) == None
    ensures forall n :: n != name ==> Get(r, n) == Get(s, n)
    ensures r.clock == s.clock
    ensures ValidStore(s) ==> ValidStore(r)
  {
    Store(s.blobs - {name}, s.clock)
  }

  /** A successful upload gives the blob an ETag that no blob of the
      container carried before, and that is never the wildcard. */
  lemma PutMintsFreshETag(s: Store, name: string, condition: Option<string>, content: Entity)
    requires ValidStore(s)
    requires Put(s, name, condition, content).1.Pass?
    ensures Get(Put(s, name, condition, content).0, name).Some?
    ensures var t := Get(Put(s, name, condition, content).0, name).value.ETag();
            t != "*" && forall n :: n in s.blobs ==> s.blobs[n].ETag() != t
  {
    var t := ETags.Mint(s.clock);
    forall n | n in s.blobs
      ensures s.blobs[n].ETag() != t
    {
      if s.blobs[n].ETag() == t {
        ETags.MintInjective(s.blobs[n].version, s.clock);
      }
    }
  }

  /** One container of the storage account, as the blob service keeps it. */
  class BlobContainer {
    var present: bool
    var blobs: map<string, Blob>
    var clock: nat
    /** How many `CreateIfNotExistsAsync` requests the container has received. */
    ghost var createCalls: nat

    ghost predicate Valid()
      reads this
    {
      (!present ==> blobs == map[]) && ValidStore(State())
    }

    function State(): Store
      reads this
    {
      Store(blobs, clock)
    }

    constructor (present: bool, blobs: map<string, Blob>, clock: nat)
      requires !present ==> blobs == map[]
      requires forall name :: name in blobs ==> blobs[name].version < clock
      ensures Valid()
      ensures this.present == present && State() == Store(blobs, clock) && createCalls == 0
    {
      this.present := present;
      this.blobs := blobs;
      this.clock := clock;
      this.createCalls := 0;
    }

    /** `CreateIfNotExistsAsync`: a container that already exists is kept
        with its blobs; a missing one is created empty. */
    method CreateIfNotExists() returns (created: bool)
      requires Valid()
      modifies this`present, this`createCalls
      ensures Valid() && present
      ensures created == !old(present)
      ensures createCalls == old(createCalls) + 1
    {
      created := !present;
      present := true;
      createCalls := createCalls + 1;
    }

    /** `OpenReadAsync`: the blob, or a 404 when there is none. */
    method OpenRead(name: string) returns (r: Result<Blob, Error>)
      ensures r.Success? <==> name in blobs
      ensures r.Success? ==> r.value == blobs[name]
      ensures r.Failure? ==> r.error == NotFound
    {
      if name in blobs {
        r := Success(blobs[name]);
      } else {
        r := Failure(NotFound);
      }
    }

    /** `OpenWriteAsync` with an access condition, followed by the upload of
        `content` when the stream is closed: a 404 when the container does not
        exist, otherwise `Put`. */
    method OpenWrite(name: string, condition: Option<string>, content: Entity) returns (r: Outcome<Error>)
      requires Valid()
      modifies this`blobs, this`clock
      ensures Valid()
      ensures !present ==> r == Fail(NotFound) && State() == old(State())
      ensures present ==> (State(), r) == Put(old(State()), name, condition, content)
    {
      if !present {
        return Fail(NotFound);
      }
      var step := Put(State(), name, condition, content);
      blobs, clock, r := step.0.blobs, step.0.clock, step.1;
    }

    /** `DeleteIfExistsAsync`: whether a blob was deleted. */
    method DeleteIfExists(name: string) returns (deleted: bool)
      requires Valid()
      modifies this`blobs
      ensures Valid()
      ensures deleted == (name in old(blobs))
      ensures State() == Remove(old(State()), name)
    {
      deleted := name in blobs;
      blobs := blobs - {name};
    }
  }
}
