/** What the adapter promises its callers, stated over the specification
    functions of `Azure` that its methods are proved to follow. */
module AzureBlobStorageProperties {
  import opened Wrappers
  import opened Storage
  import opened BlobStore
  import ETags
  import opened Azure

  // ----- Read -------------------------------------------------------------

  /** `Read` fails exactly when some key has no blob name, and then with the
      exception of the first such key. Otherwise it returns every key whose
      blob exists, under the key itself (not the blob name), bound to the
      stored object with the blob's ETag applied; keys with no blob are
      simply absent. */
  lemma ReadReturnsStoredKeys(naming: Naming, blobs: map<string, Blob>, keys: seq<Option<string>>)
    ensures ReadSpec(naming, blobs, keys).Success? <==>
            forall i :: 0 <= i < |keys| ==> GetBlobName(naming, keys[i]).Success?
    ensures ReadSpec(naming, blobs, keys).Failure? ==>
            var n := ValidKeyPrefix(naming, keys);
            n < |keys| && (forall i :: 0 <= i < n ==> GetBlobName(naming, keys[i]).Success?) &&
            GetBlobName(naming, keys[n]) == Failure(ReadSpec(naming, blobs, keys).error)
    ensures ReadSpec(naming, blobs, keys).Success? ==>
            forall k :: k in ReadSpec(naming, blobs, keys).value <==> Some(k) in keys && naming.urlEncode(k) in blobs
    ensures ReadSpec(naming, blobs, keys).Success? ==>
            forall k :: k in ReadSpec(naming, blobs, keys).value ==>
              ReadSpec(naming, blobs, keys).value[k] ==
                WithETag(blobs[naming.urlEncode(k)].content, blobs[naming.urlEncode(k)].ETag())
  {
  }

  /** `Read` of one key: an error for a key without a blob name, the stored
      object for a key whose blob exists, and nothing otherwise. */
  lemma ReadOneKey(naming: Naming, blobs: map<string, Blob>, k: Option<string>)
    ensures GetBlobName(naming, k).Failure? ==> ReadSpec(naming, blobs, [k]) == Failure(GetBlobName(naming, k).error)
    ensures GetBlobName(naming, k).Success? && GetBlobName(naming, k).value !in blobs ==>
              ReadSpec(naming, blobs, [k]) == Success(map[])
    ensures GetBlobName(naming, k).Success? && GetBlobName(naming, k).value in blobs ==>
              var b := blobs[GetBlobName(naming, k).value];
              ReadSpec(naming, blobs, [k]) == Success(map[k.value := WithETag(b.content, b.ETag())])
  {
    if GetBlobName(naming, k).Failure? {
      ValidKeyPrefixUnique(naming, [k], 0);
    } else {
      ValidKeyPrefixUnique(naming, [k], 1);
      assert KeyStrings([k]) == {k.value} by {
        assert [k][0] == k;
      }
      var name := GetBlobName(naming, k).value;
      if name in blobs {
        assert Stored(naming, blobs, k.value);
        var b := blobs[name];
        assert Found(naming, blobs, [k]) == map[k.value := WithETag(b.content, b.ETag())];
      } else {
        assert Found(naming, blobs, [k]) == map[];
      }
    }
  }

  /** The not-found law: reading a never-written key together with a
      stored one returns the stored one alone, without error. */
  lemma ReadSkipsMissingBlob(naming: Naming, blobs: map<string, Blob>, missing: string, present: string)
    requires GetBlobName(naming, Some(missing)).Success? && naming.urlEncode(missing) !in blobs
    requires GetBlobName(naming, Some(present)).Success? && naming.urlEncode(present) in blobs
    ensures ReadSpec(naming, blobs, [Some(missing), Some(present)]).Success?
    ensures ReadSpec(naming, blobs, [Some(missing), Some(present)]).value.Keys == {present}
  {
    var keys := [Some(missing), Some(present)];
    ReadReturnsStoredKeys(naming, blobs, keys);
    var m := ReadSpec(naming, blobs, keys).value;
    assert keys[1] == Some(present);
    forall k | k in m
      ensures k == present
    {
      assert Some(k) in keys;
    }
  }

  // ----- Write: the precondition rule --------------------------------------

  /** The condition rule of one write: an object that is not an
      `IStoreItem`, or whose eTag is null or "*", is written whatever the
      blob holds (even when there is none); any other eTag is written only
      when the blob exists with exactly that ETag. A failed write changes
      nothing; a successful one stores the object as given, eTag included. */
  lemma WriteOneRule(naming: Naming, s: Store, change: Change)
    requires GetBlobName(naming, change.key).Success?
    ensures var name := GetBlobName(naming, change.key).value;
            var r := WriteOne(naming, s, change);
            && (r.1.Pass? <==>
                  (change.value.Plain? || change.value.eTag.None? || change.value.eTag == Some("*") ||
                   (name in s.blobs && Some(s.blobs[name].ETag()) == change.value.eTag)))
            && (r.1.Fail? ==> r == (s, Fail(PreconditionFailed)))
            && (r.1.Pass? ==> Get(r.0, name) == Some(Blob(change.value, s.clock)))
  {
  }

  /** The wildcard is dropped rather than sent: `If-Match: *` would refuse a
      blob that does not exist, the dropped condition accepts it. */
  lemma WildcardIsNotIfMatchStar(data: Payload)
    ensures CalculatedETag(StoreItem(data, Some("*"))) == None
    ensures IfMatch(CalculatedETag(StoreItem(data, Some("*"))), None)
    ensures !IfMatch(Some("*"), None)
  {
  }

  // ----- Write: batches ----------------------------------------------------

  /** One step of `Write`'s fold: the last change is applied to the state
      the others left, and the first fault is kept. */
  lemma WriteSpecLast(naming: Naming, s: Store, front: seq<Change>, last: Change)
    ensures var before := WriteSpec(naming, s, front);
            var step := WriteOne(naming, before.0, last);
            WriteSpec(naming, s, front + [last]) == (step.0, if before.1.Fail? then before.1 else step.1)
  {
    assert (front + [last])[..|front|] == front;
  }

  /** Two consecutive `Write` calls act as one batch of their changes, except
      that the second call reports its own first fault. */
  lemma {:induction false} WriteSpecConcat(naming: Naming, s: Store, a: seq<Change>, b: seq<Change>)
    ensures WriteSpec(naming, s, a + b).0 == WriteSpec(naming, WriteSpec(naming, s, a).0, b).0
    ensures var first := WriteSpec(naming, s, a).1;
            WriteSpec(naming, s, a + b).1 == if first.Fail? then first else WriteSpec(naming, WriteSpec(naming, s, a).0, b).1
    decreases |b|
  {
    if b == [] {
      assert a + b == a;
    } else {
      var n := |b| - 1;
      var front := b[..n];
      assert b == front + [b[n]];
      assert a + b == (a + front) + [b[n]];
      WriteSpecConcat(naming, s, a, front);
      WriteSpecLast(naming, s, a + front, b[n]);
      WriteSpecLast(naming, WriteSpec(naming, s, a).0, front, b[n]);
    }
  }

  /** Whether change `i` of the batch succeeds at its turn, on the state
      the changes before it left. */
  ghost predicate PassesAt(naming: Naming, s: Store, changes: seq<Change>, i: nat)
    requires i < |changes|
  {
    WriteOne(naming, WriteSpec(naming, s, changes[..i]).0, changes[i]).1.Pass?
  }

  /** A batch reports success if and only if every one of its writes
      succeeded at its turn (and so every key had a blob name). */
  lemma {:induction false} WritePassIffEveryWritePassed(naming: Naming, s: Store, changes: seq<Change>)
    ensures WriteSpec(naming, s, changes).1.Pass? <==> forall i :: 0 <= i < |changes| ==> PassesAt(naming, s, changes, i)
    decreases |changes|
  {
    if changes != [] {
      var n := |changes| - 1;
      var front := changes[..n];
      var before := WriteSpec(naming, s, front);
      var lastOut := WriteOne(naming, before.0, changes[n]);
      WritePassIffEveryWritePassed(naming, s, front);
      assert WriteSpec(naming, s, changes).1.Pass? <==> before.1.Pass? && lastOut.1.Pass?;
      assert PassesAt(naming, s, changes, n) == lastOut.1.Pass?;
      forall i | 0 <= i < n
        ensures PassesAt(naming, s, changes, i) == PassesAt(naming, s, front, i)
      {
        assert changes[..i] == front[..i];
        assert changes[i] == front[i];
      }
    }
  }

  /** A change that succeeds at its turn had a blob name. */
  lemma PassesAtHasBlobName(naming: Naming, s: Store, changes: seq<Change>, i: nat)
    requires i < |changes| && PassesAt(naming, s, changes, i)
    ensures GetBlobName(naming, changes[i].key).Success?
  {
  }

  /** Whatever the batch reports, a change that succeeded at its turn and
      that no later successful change overwrote leaves its object, exactly
      as given, in its blob: a failing change neither stops the others nor
      undoes the earlier ones. */
  lemma {:induction false} WriteStoresLastValue(naming: Naming, s: Store, changes: seq<Change>, i: nat)
    requires i < |changes| && PassesAt(naming, s, changes, i)
    requires forall j :: i < j < |changes| && GetBlobName(naming, changes[j].key) == GetBlobName(naming, changes[i].key) ==>
               !PassesAt(naming, s, changes, j)
    ensures GetBlobName(naming, changes[i].key).Success?
    ensures var name := GetBlobName(naming, changes[i].key).value;
            name in WriteSpec(naming, s, changes).0.blobs &&
            WriteSpec(naming, s, changes).0.blobs[name].content == changes[i].value
    decreases |changes|
  {
    PassesAtHasBlobName(naming, s, changes, i);
    var n := |changes| - 1;
    var front := changes[..n];
    var before := WriteSpec(naming, s, front);
    assert changes == front + [changes[n]];
    WriteSpecLast(naming, s, front, changes[n]);
    var after := WriteOne(naming, before.0, changes[n]).0;
    assert WriteSpec(naming, s, changes).0 == after;
    if i == n {
      assert front == changes[..i];
      assert Get(after, GetBlobName(naming, changes[i].key).value) == Some(Blob(changes[i].value, before.0.clock));
    } else {
      var name := GetBlobName(naming, changes[i].key).value;
      forall j | i < j < |front| && GetBlobName(naming, front[j].key) == GetBlobName(naming, front[i].key)
        ensures !PassesAt(naming, s, front, j)
      {
        PassesAtFront(naming, s, changes, j);
      }
      PassesAtFront(naming, s, changes, i);
      WriteStoresLastValue(naming, s, front, i);
      assert front == changes[..n];
      WriteOneLeavesName(naming, before.0, changes[n], name);
      assert Get(after, name) == Get(before.0, name);
    }
  }

  /** Whether change `j` passes at its turn does not depend on the changes
      after it. */
  lemma PassesAtFront(naming: Naming, s: Store, changes: seq<Change>, j: nat)
    requires j < |changes| - 1
    ensures PassesAt(naming, s, changes, j) == PassesAt(naming, s, changes[..|changes| - 1], j)
  {
    var front := changes[..|changes| - 1];
    assert front[..j] == changes[..j] && front[j] == changes[j];
  }

  /** A change that is refused, or whose key names another blob, leaves
      blob `name` as it was. */
  lemma WriteOneLeavesName(naming: Naming, s: Store, change: Change, name: string)
    requires WriteOne(naming, s, change).1.Fail? || GetBlobName(naming, change.key) != Success(name)
    ensures Get(WriteOne(naming, s, change).0, name) == Get(s, name)
  {
  }

  /** A batch is not atomic: a write is kept although a later change of the
      same batch fails. */
  lemma FailedBatchKeepsEarlierWrite(naming: Naming, s: Store, k: string, v: Entity, w: Entity)
    requires GetBlobName(naming, Some(k)).Success?
    requires CalculatedETag(v).None?
    ensures var r := WriteSpec(naming, s, [Change(Some(k), v), Change(None, w)]);
            && r.1 == Fail(ArgumentNull("key"))
            && naming.urlEncode(k) in r.0.blobs && r.0.blobs[naming.urlEncode(k)].content == v
  {
    var changes := [Change(Some(k), v), Change(None, w)];
    assert changes[..0] == [];
    assert changes[..1] == [changes[0]] && [changes[0]][..0] == [];
    assert PassesAt(naming, s, changes, 0);
    WriteStoresLastValue(naming, s, changes, 0);
  }

  /** The typed round trip: after a successful write of `v` under `k`,
      reading `k` returns `v`, with only its eTag replaced by the blob's new
      ETag when `v` is an `IStoreItem`. */
  lemma ReadAfterWrite(naming: Naming, s: Store, k: string, v: Entity)
    requires WriteSpec(naming, s, [Change(Some(k), v)]).1.Pass?
    ensures var s1 := WriteSpec(naming, s, [Change(Some(k), v)]).0;
            var name := naming.urlEncode(k);
            && name in s1.blobs && s1.blobs[name].content == v
            && ReadSpec(naming, s1.blobs, [Some(k)]) == Success(map[k := WithETag(v, s1.blobs[name].ETag())])
  {
    var changes := [Change(Some(k), v)];
    WritePassIffEveryWritePassed(naming, s, changes);
    assert PassesAt(naming, s, changes, 0);
    WriteStoresLastValue(naming, s, changes, 0);
    ReadOneKey(naming, WriteSpec(naming, s, changes).0.blobs, Some(k));
  }

  // ----- Write: optimistic concurrency ---------------------------------------

  /** Whether a successful write to blob `name` happens in `changes`. */
  ghost predicate Touches(naming: Naming, s: Store, changes: seq<Change>, name: string)
    decreases |changes|
  {
    if changes == [] then false
    else
      var front := changes[..|changes| - 1];
      var last := changes[|changes| - 1];
      || Touches(naming, s, front, name)
      || (GetBlobName(naming, last.key) == Success(name) &&
          WriteOne(naming, WriteSpec(naming, s, front).0, last).1.Pass?)
  }

  /** A blob no write of the batch reached is as it was; one that some write
      reached now has a version minted during the batch. */
  lemma {:induction false} UntouchedOrRenewed(naming: Naming, s: Store, changes: seq<Change>, name: string)
    ensures var r := WriteSpec(naming, s, changes).0;
            if Touches(naming, s, changes, name) then name in r.blobs && r.blobs[name].version >= s.clock
            else Get(r, name) == Get(s, name)
    decreases |changes|
  {
    if changes != [] {
      var front := changes[..|changes| - 1];
      UntouchedOrRenewed(naming, s, front, name);
    }
  }

  /** The concurrency law: a write carrying the ETag `t` that a blob had
      when it was read succeeds after a batch of other writes if and only if
      none of them reached that blob. */
  lemma WriteBackSucceedsIffUntouched(naming: Naming, s: Store, others: seq<Change>, k: string, t: string, data: Payload)
    requires ValidStore(s)
    requires GetBlobName(naming, Some(k)).Success?
    requires naming.urlEncode(k) in s.blobs && s.blobs[naming.urlEncode(k)].ETag() == t
    ensures var s1 := WriteSpec(naming, s, others).0;
            WriteOne(naming, s1, Change(Some(k), StoreItem(data, Some(t)))).1.Pass? <==>
            !Touches(naming, s, others, naming.urlEncode(k))
  {
    var name := naming.urlEncode(k);
    var s1 := WriteSpec(naming, s, others).0;
    UntouchedOrRenewed(naming, s, others, name);
    WriteOneRule(naming, s1, Change(Some(k), StoreItem(data, Some(t))));
    if Touches(naming, s, others, name) && s1.blobs[name].ETag() == t {
      ETags.MintInjective(s1.blobs[name].version, s.blobs[name].version);
    }
  }

  /** Read, modify, write back: an entity read with tag `T` can be written
      back once with `T`; a second write still carrying `T` fails and
      leaves the container as the first write left it. */
  lemma ReadModifyWriteOnce(naming: Naming, s: Store, k: string, x: Payload, y: Payload)
    requires ValidStore(s)
    requires ReadSpec(naming, s.blobs, [Some(k)]).Success?
    requires k in ReadSpec(naming, s.blobs, [Some(k)]).value
    requires ReadSpec(naming, s.blobs, [Some(k)]).value[k].StoreItem?
    ensures var tag := ReadSpec(naming, s.blobs, [Some(k)]).value[k].eTag;
            var first := WriteSpec(naming, s, [Change(Some(k), StoreItem(x, tag))]);
            var second := WriteSpec(naming, first.0, [Change(Some(k), StoreItem(y, tag))]);
            first.1 == Pass && second == (first.0, Fail(PreconditionFailed))
  {
    var name := naming.urlEncode(k);
    ReadOneKey(naming, s.blobs, Some(k));
    if GetBlobName(naming, Some(k)).Success? && name in s.blobs {
      var t := s.blobs[name].ETag();
      var c1 := Change(Some(k), StoreItem(x, Some(t)));
      var c2 := Change(Some(k), StoreItem(y, Some(t)));
      WriteOneRule(naming, s, c1);
      var s1 := WriteOne(naming, s, c1).0;
      assert WriteSpec(naming, s, [c1]) == WriteOne(naming, s, c1) by {
        assert [c1][..0] == [];
      }
      WriteOneRule(naming, s1, c2);
      if s1.blobs[name].ETag() == t {
        ETags.MintInjective(s.clock, s.blobs[name].version);
      }
      assert WriteSpec(naming, s1, [c2]) == WriteOne(naming, s1, c2) by {
        assert [c2][..0] == [];
      }
    }
  }

  /** Two writers that read the same version and write back in one batch:
      the first wins, the second fails, and the blob keeps the winner's
      object. */
  lemma TwoWritersOneWins(naming: Naming, s: Store, k: string, x: Payload, y: Payload)
    requires ValidStore(s)
    requires GetBlobName(naming, Some(k)).Success? && naming.urlEncode(k) in s.blobs
    ensures var t := s.blobs[naming.urlEncode(k)].ETag();
            var r := WriteSpec(naming, s, [Change(Some(k), StoreItem(x, Some(t))), Change(Some(k), StoreItem(y, Some(t)))]);
            && r.1 == Fail(PreconditionFailed)
            && naming.urlEncode(k) in r.0.blobs
            && r.0.blobs[naming.urlEncode(k)].content == StoreItem(x, Some(t))
  {
    var name := naming.urlEncode(k);
    var t := s.blobs[name].ETag();
    var c1 := Change(Some(k), StoreItem(x, Some(t)));
    var c2 := Change(Some(k), StoreItem(y, Some(t)));
    var both := [c1, c2];
    WriteOneRule(naming, s, c1);
    var s1 := WriteOne(naming, s, c1).0;
    assert WriteSpec(naming, s, [c1]) == (s1, Pass) by {
      assert [c1][..0] == [];
    }
    WriteOneRule(naming, s1, c2);
    if s1.blobs[name].ETag() == t {
      ETags.MintInjective(s.clock, s.blobs[name].version);
    }
    assert WriteOne(naming, s1, c2) == (s1, Fail(PreconditionFailed));
    assert WriteSpec(naming, s, both) == (s1, Fail(PreconditionFailed)) by {
      assert both[..1] == [c1];
    }
  }

  // ----- Delete ------------------------------------------------------------

  lemma BlobNamesSnoc(naming: Naming, keys: seq<Option<string>>, key: Option<string>)
    ensures BlobNames(naming, keys + [key]) ==
            BlobNames(naming, keys) + (if GetBlobName(naming, key).Success? then {GetBlobName(naming, key).value} else {})
  {
    var ks := keys + [key];
    forall n | n in BlobNames(naming, ks)
      ensures n in BlobNames(naming, keys) || GetBlobName(naming, key) == Success(n)
    {
      var i :| 0 <= i < |ks| && GetBlobName(naming, ks[i]).Success? && GetBlobName(naming, ks[i]).value == n;
      if i < |keys| {
        assert keys[i] == ks[i];
      }
    }
    forall n | n in BlobNames(naming, keys)
      ensures n in BlobNames(naming, ks)
    {
      var i :| 0 <= i < |keys| && GetBlobName(naming, keys[i]).Success? && GetBlobName(naming, keys[i]).value == n;
      assert ks[i] == keys[i];
    }
    if GetBlobName(naming, key).Success? {
      assert ks[|keys|] == key;
    }
  }

  /** `Delete` removes exactly the blobs named by the keys before the first
      key without a blob name, keeps every other blob, and fails with that
      key's exception if there is one. */
  lemma {:induction false} DeleteRemovesExactly(naming: Naming, s: Store, keys: seq<Option<string>>)
    ensures var n := ValidKeyPrefix(naming, keys);
            DeleteSpec(naming, s, keys) ==
              (Store(s.blobs - BlobNames(naming, keys[..n]), s.clock),
               if n == |keys| then Pass else Fail(GetBlobName(naming, keys[n]).error))
    decreases |keys|
  {
    if keys == [] {
      assert BlobNames(naming, []) == {};
      assert s.blobs - {} == s.blobs;
    } else {
      var front := keys[..|keys| - 1];
      var last := keys[|keys| - 1];
      assert keys == front + [last];
      DeleteRemovesExactly(naming, s, front);
      var m := ValidKeyPrefix(naming, front);
      if m < |front| {
        ValidKeyPrefixUnique(naming, keys, m);
        assert keys[..m] == front[..m];
      } else if GetBlobName(naming, last).Failure? {
        ValidKeyPrefixUnique(naming, keys, m);
        assert keys[..m] == front;
        assert front[..m] == front;
      } else {
        ValidKeyPrefixUnique(naming, keys, m + 1);
        assert front[..m] == front;
        assert keys[..m + 1] == keys;
        BlobNamesSnoc(naming, front, last);
        var name := GetBlobName(naming, last).value;
        var before := DeleteSpec(naming, s, front);
        assert DeleteSpec(naming, s, keys) == (Remove(before.0, name), Pass);
        assert (s.blobs - BlobNames(naming, front)) - {name} == s.blobs - (BlobNames(naming, front) + {name});
      }
    }
  }

  /** Deleting twice is deleting once: a missing blob is no error, so the
      second pass changes nothing and reports the same outcome. */
  lemma DeleteIdempotent(naming: Naming, s: Store, keys: seq<Option<string>>)
    ensures DeleteSpec(naming, DeleteSpec(naming, s, keys).0, keys) == DeleteSpec(naming, s, keys)
  {
    var s1 := DeleteSpec(naming, s, keys).0;
    DeleteRemovesExactly(naming, s, keys);
    DeleteRemovesExactly(naming, s1, keys);
    var names := BlobNames(naming, keys[..ValidKeyPrefix(naming, keys)]);
    assert (s.blobs - names) - names == s.blobs - names;
  }

  /** Deleting a key that has no blob succeeds and changes nothing. */
  lemma DeleteMissingIsNoError(naming: Naming, s: Store, k: string)
    requires GetBlobName(naming, Some(k)).Success? && naming.urlEncode(k) !in s.blobs
    ensures DeleteSpec(naming, s, [Some(k)]) == (s, Pass)
  {
    assert [Some(k)][..0] == [];
    assert s.blobs - {naming.urlEncode(k)} == s.blobs;
  }
}
