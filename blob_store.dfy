/** The blob service's adapter over its MinIO bucket (`MinioRepository`):
    every object is stored under its name with its description attached as
    user metadata, and every answer about an object is read back with a
    `stat` of its key. */
module BlobStore {
  import opened Wrappers
  import KeyOrder

  /** An object in the bucket: its bytes, its metadata headers and the
      modification time the store stamped on it. */
  datatype StoredObject = StoredObject(data: seq<bv8>, metadata: map<string, string>, lastModified: int)

  type Bucket = map<string, StoredObject>

  datatype Status = Modified | Deleted

  /** A `FileRead`: what the repository reports about one object. */
  datatype FileInfo = FileInfo(status: Option<Status>, name: string, lastUpdatedAt: int, description: Option<string>)

  /** Which remote calls of one `create_or_update` fail (network, quota,
      rejected key, ...). */
  datatype Faults = Faults(putFails: bool, statFails: bool)

  /** `UnprocessableEntity`, or the `S3Error` a `stat` of a missing key raises. */
  datatype BlobError = UnprocessableEntity | NoSuchKey

  /** The store keeps user metadata under this header prefix. */
  const MetaPrefix: string := "x-amz-meta-"

  /** The header `stat` reports the description under. */
  const DescriptionHeader: string := MetaPrefix + "description"

  /** `metadata.get(key)`. */
  function MetaGet(metadata: map<string, string>, key: string): (r: Option<string>)
    ensures r.Some? <==> key in metadata
    ensures r.Some? ==> r.value == metadata[key]
  {
    if key in metadata then Some(metadata[key]) else None
  }

  lemma PrefixInjective(a: string, b: string)
    requires MetaPrefix + a == MetaPrefix + b
    ensures a == b
  {
    assert a == (MetaPrefix + a)[|MetaPrefix|..];
    assert b == (MetaPrefix + b)[|MetaPrefix|..];
  }

  /** The headers `put_object` sends for the user metadata it is given: every
      key of the metadata, and nothing else, under the prefix. */
  function AmzHeaders(metadata: Option<map<string, string>>): (h: map<string, string>)
    ensures metadata.None? ==> h == map[]
    ensures metadata.Some? ==> forall k :: MetaGet(h, MetaPrefix + k) == MetaGet(metadata.value, k)
  {
    if metadata.None? then map[]
    else
      var m := metadata.value;
      assert forall a, b :: a in m && b in m && MetaPrefix + a == MetaPrefix + b ==> a == b by {
        forall a, b | a in m && b in m && MetaPrefix + a == MetaPrefix + b ensures a == b {
          PrefixInjective(a, b);
        }
      }
      var h := map k | k in m :: MetaPrefix + k := m[k];
      assert forall k :: MetaGet(h, MetaPrefix + k) == MetaGet(m, k) by {
        forall k ensures MetaGet(h, MetaPrefix + k) == MetaGet(m, k) {
          if k in m {
            assert MetaPrefix + k in h;
          } else if MetaPrefix + k in h {
            var k' :| k' in m && MetaPrefix + k' == MetaPrefix + k;
            PrefixInjective(k', k);
          }
        }
      }
      h
  }

  /** `get`: a `stat` of the key; a missing key raises. */
  function Get(bucket: Bucket, name: string): (r: Result<FileInfo, BlobError>)
    ensures r.Err? <==> name !in bucket
    ensures r.Err? ==> r.error == NoSuchKey
    ensures r.Ok? ==> && r.value.status == None && r.value.name == name
                      && r.value.lastUpdatedAt == bucket[name].lastModified
                      && r.value.description == MetaGet(bucket[name].metadata, DescriptionHeader)
  {
    if name !in bucket then Err(NoSuchKey)
    else
      var obj := bucket[name];
      Ok(FileInfo(None, name, obj.lastModified, MetaGet(obj.metadata, DescriptionHeader)))
  }

  /** `get` applied to each key in turn, as the comprehension of `list` does. */
  function GetEach(bucket: Bucket, keys: seq<string>): (r: seq<FileInfo>)
    requires forall i :: 0 <= i < |keys| ==> keys[i] in bucket
    ensures |r| == |keys|
    ensures forall i :: 0 <= i < |r| ==> r[i].name == keys[i] && Get(bucket, r[i].name) == Ok(r[i])
  {
    if keys == [] then [] else [Get(bucket, keys[0]).value] + GetEach(bucket, keys[1..])
  }

  /** `list`: one `get` per key, in listing order. */
  function List(bucket: Bucket): (r: seq<FileInfo>)
    ensures |r| == |bucket|
    ensures forall i :: 0 <= i < |r| ==> Get(bucket, r[i].name) == Ok(r[i])
    ensures forall i, j :: 0 <= i < j < |r| ==> KeyOrder.Below(r[i].name, r[j].name)
  {
    var keys := KeyOrder.SortedKeys(bucket.Keys);
    assert |bucket.Keys| == |bucket|;
    GetEach(bucket, keys)
  }

  /** Every object of the bucket appears in the listing, exactly once. */
  lemma ListCoversBucket(bucket: Bucket, name: string)
    requires name in bucket
    ensures exists i :: 0 <= i < |List(bucket)| && List(bucket)[i].name == name
    ensures forall i, j :: 0 <= i < j < |List(bucket)| ==> List(bucket)[i].name != List(bucket)[j].name
  {
    var keys := KeyOrder.SortedKeys(bucket.Keys);
    var i :| 0 <= i < |keys| && keys[i] == name;
    assert List(bucket)[i].name == name;
    forall i, j | 0 <= i < j < |List(bucket)| ensures List(bucket)[i].name != List(bucket)[j].name {
      KeyOrder.BelowIrreflexive(List(bucket)[i].name);
    }
  }

  /** `create_or_update`: put the object, then stat it and answer from the
      stat and the given metadata. Any failure becomes `UnprocessableEntity`,
      including one after the put has already written the object. */
  function CreateOrUpdateSpec(bucket: Bucket, name: string, data: seq<bv8>, metadata: Option<map<string, string>>, now: int, faults: Faults): (r: (Bucket, Result<FileInfo, BlobError>))
    ensures faults.putFails ==> r.0 == bucket
    ensures !faults.putFails ==> && r.0.Keys == bucket.Keys + {name}
                                 && r.0[name] == StoredObject(data, AmzHeaders(metadata), now)
                                 && forall k :: k in bucket && k != name ==> r.0[k] == bucket[k]
    ensures r.1.Err? ==> r.1.error == UnprocessableEntity
    ensures r.1.Ok? <==> !faults.putFails && !faults.statFails && metadata.Some?
    ensures r.1.Ok? ==> r.1.value == FileInfo(Some(Modified), name, now, MetaGet(metadata.value, "description"))
    ensures r.1.Ok? ==> Get(r.0, name) == Ok(r.1.value.(status := None))
  {
    if faults.putFails then (bucket, Err(UnprocessableEntity))
    else
      var bucket' := bucket[name := StoredObject(data, AmzHeaders(metadata), now)];
      var obj := if faults.statFails then Err(UnprocessableEntity) else Get(bucket', name);
      if obj.Err? || metadata.None? then (bucket', Err(UnprocessableEntity))
      else (bucket', Ok(FileInfo(Some(Modified), name, obj.value.lastUpdatedAt, MetaGet(metadata.value, "description"))))
  }

  /** `delete`: stat the key (a missing key raises and nothing is removed),
      remove it, and answer with the snapshot taken before the removal. */
  function DeleteSpec(bucket: Bucket, name: string): (r: (Bucket, Result<FileInfo, BlobError>))
    ensures name !in bucket ==> r == (bucket, Err(NoSuchKey))
    ensures name in bucket ==> && r.0 == bucket - {name}
                               && r.1 == Ok(Get(bucket, name).value.(status := Some(Deleted)))
                               && Get(r.0, name) == Err(NoSuchKey)
  {
    match Get(bucket, name)
    case Err(e) => (bucket, Err(e))
    case Ok(obj) =>
      // `last_updated_at` is a datetime and always truthy, so the object is always removed.
      (bucket - {name}, Ok(FileInfo(Some(Deleted), name, obj.lastUpdatedAt, obj.description)))
  }

  /** The repository and the bucket it stores into. */
  class MinioRepository {
    var bucket: Bucket

    constructor ()
      ensures bucket == map[]
    {
      bucket := map[];
    }

    method CreateOrUpdate(name: string, data: seq<bv8>, metadata: Option<map<string, string>>, now: int, faults: Faults)
      returns (r: Result<FileInfo, BlobError>)
      modifies this
      ensures (bucket, r) == CreateOrUpdateSpec(old(bucket), name, data, metadata, now, faults)
    {
      if faults.putFails {
        r := Err(UnprocessableEntity);
        return;
      }
      bucket := bucket[name := StoredObject(data, AmzHeaders(metadata), now)];
      if faults.statFails {
        r := Err(UnprocessableEntity);
        return;
      }
      var obj := Get(bucket, name);
      if obj.Err? || metadata.None? {
        r := Err(UnprocessableEntity);
        return;
      }
      r := Ok(FileInfo(Some(Modified), name, obj.value.lastUpdatedAt, MetaGet(metadata.value, "description")));
    }

    method Delete(name: string) returns (r: Result<FileInfo, BlobError>)
      modifies this
      ensures (bucket, r) == DeleteSpec(old(bucket), name)
    {
      var obj := Get(bucket, name);
      if obj.Err? {
        r := Err(obj.error);
        return;
      }
      bucket := bucket - {name};
      r := Ok(obj.value.(status := Some(Deleted)));
    }
  }

  /** The route tests on an empty bucket: upload `cat.png` with description
      `test`, read it back, list the bucket, delete it, and read it again. */
  method UploadGetListDelete(cat: seq<bv8>, now: int)
    returns (uploaded: Result<FileInfo, BlobError>, fetched: Result<FileInfo, BlobError>, listed: seq<FileInfo>,
             deleted: Result<FileInfo, BlobError>, refetched: Result<FileInfo, BlobError>)
    ensures uploaded == Ok(FileInfo(Some(Modified), "cat.png", now, Some("test")))
    ensures fetched.Ok? && fetched.value.description == Some("test")
    ensures |listed| >= 1
    ensures deleted.Ok? && deleted.value.status == Some(Deleted) && deleted.value.description == Some("test")
    ensures refetched == Err(NoSuchKey)
  {
    var repo := new MinioRepository();
    uploaded := repo.CreateOrUpdate("cat.png", cat, Some(map["description" := "test"]), now, Faults(false, false));
    fetched := Get(repo.bucket, "cat.png");
    listed := List(repo.bucket);
    deleted := repo.Delete("cat.png");
    refetched := Get(repo.bucket, "cat.png");
  }
}
