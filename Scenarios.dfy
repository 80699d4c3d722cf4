/** A client of the adapter: the read-modify-write exchange a bot's state
    layer performs, proved from the adapter's contracts alone. */
module Scenarios {
  import opened Wrappers
  import opened Storage
  import opened BlobStore
  import opened Azure
  import AzureBlobStorageProperties

  method ReadModifyWrite()
  {
    var naming := Naming(k => k, n => n != "", n => n != "");
    var account := new BlobContainer(false, map[], 0);
    var storage := new AzureBlobStorage(account, "botstate", naming);

    // A new entity carries a null eTag and is written unconditionally.
    var s0 := account.State();
    var w1 := storage.Write(Some([Change(Some("k1"), StoreItem("{x:1}", None))]));
    AzureBlobStorageProperties.ReadAfterWrite(naming, s0, "k1", StoreItem("{x:1}", None));
    assert w1 == Pass;
    assert account.createCalls == 1;

    // Reading it back gives the object with the blob's ETag T1.
    var r1 := storage.Read(Some([Some("k1")]));
    AzureBlobStorageProperties.ReadOneKey(naming, account.blobs, Some("k1"));
    assert r1.Success? && "k1" in r1.value;
    var t1 := r1.value["k1"].eTag;
    assert t1 == Some(account.blobs["k1"].ETag());

    // Writing back with T1 succeeds once; a second write carrying T1 fails.
    var s1 := account.State();
    AzureBlobStorageProperties.ReadModifyWriteOnce(naming, s1, "k1", "{x:2}", "{x:3}");
    var w2 := storage.Write(Some([Change(Some("k1"), StoreItem("{x:2}", t1))]));
    assert w2 == Pass;
    var w3 := storage.Write(Some([Change(Some("k1"), StoreItem("{x:3}", t1))]));
    assert w3 == Fail(PreconditionFailed);

    // The container was created on the first call and never again.
    assert account.createCalls == 1;

    // Deleting twice is harmless; afterwards the key reads as absent.
    var d1 := storage.Delete(Some([Some("k1")]));
    var d2 := storage.Delete(Some([Some("k1")]));
    assert [Some("k1")][..0] == [];
    assert d1 == Pass && d2 == Pass;
    var r2 := storage.Read(Some([Some("k1")]));
    AzureBlobStorageProperties.ReadOneKey(naming, account.blobs, Some("k1"));
    assert r2 == Success(map[]);

    // A null argument is refused.
    var w4 := storage.Write(None);
    assert w4 == Fail(ArgumentNull("changes"));
  }

  /** Two adapters over one container, each with its own lazy handle: a
      write through one makes the ETag the other read stale. */
  method TwoAdapters()
  {
    var naming := Naming(k => k, n => n != "", n => n != "");
    var account := new BlobContainer(false, map[], 0);
    var a := new AzureBlobStorage(account, "botstate", naming);
    var b := new AzureBlobStorage(account, "botstate", naming);

    var s0 := account.State();
    var w1 := a.Write(Some([Change(Some("k1"), StoreItem("{x:1}", None))]));
    AzureBlobStorageProperties.ReadAfterWrite(naming, s0, "k1", StoreItem("{x:1}", None));
    assert w1 == Pass;

    // B reads the entity and its ETag T1.
    var r1 := b.Read(Some([Some("k1")]));
    AzureBlobStorageProperties.ReadOneKey(naming, account.blobs, Some("k1"));
    assert r1.Success? && "k1" in r1.value;
    var t1 := r1.value["k1"].eTag;

    // A writes with T1 first; B's write-back with T1 is then refused.
    var s1 := account.State();
    AzureBlobStorageProperties.ReadModifyWriteOnce(naming, s1, "k1", "{x:2}", "{x:3}");
    var w2 := a.Write(Some([Change(Some("k1"), StoreItem("{x:2}", t1))]));
    assert w2 == Pass;
    var w3 := b.Write(Some([Change(Some("k1"), StoreItem("{x:3}", t1))]));
    assert w3 == Fail(PreconditionFailed);

    // Each adapter created the container once.
    assert account.createCalls == 2;
  }
}
