/** The values the adapter stores and the exceptions it raises. An entity is
    an arbitrary object; it may implement `IStoreItem`, the capability of
    carrying a mutable `eTag` string. The serializer embeds the concrete type
    (`TypeNameHandling.All`), so the model treats the codec as the identity:
    what is written is what is read back. */
module Storage {
  import opened Wrappers

  /** Every property of an entity other than `eTag`, its concrete type included. */
  type Payload = string

  datatype Entity =
    | Plain(data: Payload)                          // does not implement IStoreItem
    | StoreItem(data: Payload, eTag: Option<string>) // IStoreItem; None is a null eTag

  /** The exceptions the adapter and the blob service raise. */
  datatype Error =
    | ArgumentNull(paramName: string)      // ArgumentNullException(nameof(paramName))
    | InvalidBlobName(name: string)        // NameValidator.ValidateBlobName rejects name
    | InvalidContainerName(name: string)   // NameValidator.ValidateContainerName rejects name
    | NotFound                             // StorageException, HTTP 404
    | PreconditionFailed                   // StorageException, HTTP 412

  /** What `Read` does to a deserialized object before returning it: an
      `IStoreItem` gets the blob's ETag, any other object is left as stored. */
  function WithETag(e: Entity, eTag: string): (r: Entity)
    ensures r.data == e.data
    ensures r.StoreItem? <==> e.StoreItem?
    ensures r.StoreItem? ==> r.eTag == Some(eTag)
    ensures e.Plain? ==> r == e
  {
    match e
    case Plain(_) => e
    case StoreItem(data, _) => StoreItem(data, Some(eTag))
  }
}
