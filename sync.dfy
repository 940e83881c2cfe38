/** The two stores side by side: the image service's catalog fed by the blob
    service through the gateway. Each catalog row should mirror the object of
    the same name: its modification time and its description. */
module Sync {
  import opened Wrappers
  import MemeCatalog
  import BlobStore

  /** The metadata the blob service's upload route attaches: the form's
      description. */
  function UploadMetadata(description: string): (m: map<string, string>)
    ensures BlobStore.MetaGet(m, "description") == Some(description)
  {
    map["description" := description]
  }

  /** What the gateway hands the catalog after the blob service's
      `create_or_update`: the JSON body without `status`, validated as a
      `MemeCreate`. An error body has neither `name` nor `last_updated_at`,
      so it fails validation. */
  function Relay(r: Result<BlobStore.FileInfo, BlobStore.BlobError>): (reply: MemeCatalog.CreateReply)
    ensures r.Err? <==> reply.CreateFailed?
    ensures r.Ok? ==> reply.synced == MemeCatalog.Synced(r.value.name, r.value.description, r.value.lastUpdatedAt)
  {
    match r
    case Ok(info) => MemeCatalog.Stored(MemeCatalog.Synced(info.name, info.description, info.lastUpdatedAt))
    case Err(_) => MemeCatalog.CreateFailed
  }

  /** A row carries the modification time and the description of its object. */
  predicate Mirrors(row: MemeCatalog.Meme, obj: BlobStore.StoredObject) {
    row.lastUpdatedAt == obj.lastModified && row.description == BlobStore.MetaGet(obj.metadata, BlobStore.DescriptionHeader)
  }

  /** Every row names an object of the bucket and mirrors it. */
  ghost predicate InStep(rows: seq<MemeCatalog.Meme>, bucket: BlobStore.Bucket) {
    forall i :: 0 <= i < |rows| ==> rows[i].name in bucket && Mirrors(rows[i], bucket[rows[i].name])
  }

  /** An upload through both services keeps the catalog in step with the
      bucket when the blob service confirms it, and when its put fails. */
  lemma UploadKeepsStoresInStep(t: MemeCatalog.Table, bucket: BlobStore.Bucket, file: MemeCatalog.Upload,
                                description: string, now: int, faults: BlobStore.Faults)
    requires MemeCatalog.WellFormed(t) && MemeCatalog.UniqueNames(t.rows) && InStep(t.rows, bucket)
    requires !faults.statFails || faults.putFails
    ensures var (bucket', res) := BlobStore.CreateOrUpdateSpec(bucket, file.fileName, file.content, Some(UploadMetadata(description)), now, faults);
            var o := MemeCatalog.CreateSpec(t, file, description, Relay(res));
            InStep(o.table.rows, bucket') && MemeCatalog.UniqueNames(o.table.rows)
  {
  }

  /** When the stat after a successful put fails, the blob service reports
      an error although the object was overwritten, and the catalog row of
      that name keeps the time of the previous upload. */
  lemma StatFailureLeavesCatalogBehind(t: MemeCatalog.Table, bucket: BlobStore.Bucket, file: MemeCatalog.Upload,
                                       description: string, now: int, i: nat)
    requires MemeCatalog.WellFormed(t) && InStep(t.rows, bucket)
    requires i < |t.rows| && t.rows[i].name == file.fileName && t.rows[i].lastUpdatedAt != now
    ensures var (bucket', res) := BlobStore.CreateOrUpdateSpec(bucket, file.fileName, file.content, Some(UploadMetadata(description)), now, BlobStore.Faults(false, true));
            && res.Err?
            && MemeCatalog.CreateSpec(t, file, description, Relay(res)).table == t
            && !InStep(t.rows, bucket')
  {
  }

  /** The name the blob service's `delete` route reads from the query string
      `?name={name}` that the gateway builds without escaping: the value
      stops at the first `&`, which starts another parameter, or `#`, which
      starts the fragment. */
  function ReceivedName(name: string): (r: string)
    ensures |r| <= |name| && r == name[..|r|]
    ensures |r| < |name| ==> name[|r|] == '&' || name[|r|] == '#'
    ensures forall i :: 0 <= i < |r| ==> r[i] != '&' && r[i] != '#'
  {
    if name == [] || name[0] == '&' || name[0] == '#' then []
    else [name[0]] + ReceivedName(name[1..])
  }

  /** A name whose first `&` or `#` is at `k` reaches the blob service as
      its first `k` characters. */
  lemma {:induction false} ReceivedNameCutsAt(name: string, k: nat)
    requires k < |name| && (name[k] == '&' || name[k] == '#')
    requires forall i :: 0 <= i < k ==> name[i] != '&' && name[i] != '#'
    ensures ReceivedName(name) == name[..k]
  {
    if k > 0 {
      ReceivedNameCutsAt(name[1..], k - 1);
      assert name[..k] == [name[0]] + name[1..][..k - 1];
    }
  }

  /** The name `cat.png&x.png` reaches the blob service as `cat.png`. */
  lemma AmpersandCutsName()
    ensures ReceivedName("cat.png&x.png") == "cat.png"
  {
    ReceivedNameCutsAt("cat.png&x.png", 7);
  }

  /** With the query built as written, deleting a meme whose name the query
      cuts short (such as `cat.png&x.png`, see `AmpersandCutsName`) while
      another meme carries the shortened name removes that other meme's
      object: the deleted row's object stays, and the other row is left
      without one. */
  lemma UnescapedDeleteRemovesAnotherObject(t: MemeCatalog.Table, bucket: BlobStore.Bucket, id: int, j: nat)
    requires MemeCatalog.WellFormed(t) && MemeCatalog.UniqueNames(t.rows) && InStep(t.rows, bucket)
    requires MemeCatalog.Lookup(t, id).Some?
    requires j < |t.rows| && t.rows[j].id != Some(id) && t.rows[j].name == ReceivedName(MemeCatalog.Lookup(t, id).value.name)
    ensures var name := MemeCatalog.Lookup(t, id).value.name;
            var (bucket', res) := BlobStore.DeleteSpec(bucket, ReceivedName(name));
            var o := MemeCatalog.DeleteSpec(t, id, MemeCatalog.Answered(res.Ok?));
            && o.result.Ok? && MemeCatalog.Lookup(o.table, id).None?
            && name in bucket' && t.rows[j].name !in bucket'
            && !InStep(o.table.rows, bucket')
  {
    var i := MemeCatalog.FirstWithId(t.rows, id).value;
    var name := t.rows[i].name;
    assert i != j && t.rows[j].name != name;
    var (bucket', res) := BlobStore.DeleteSpec(bucket, ReceivedName(name));
    var o := MemeCatalog.DeleteSpec(t, id, MemeCatalog.Answered(res.Ok?));
    var k := if j < i then j else j - 1;
    assert o.table.rows[k] == t.rows[j];
  }

  /** The delete as the gateway evidently means it, with the name reaching
      the blob service intact (as an escaped query parameter would carry
      it): the object and the row go together, and the rest stays in step. */
  lemma DeleteKeepsStoresInStep(t: MemeCatalog.Table, bucket: BlobStore.Bucket, id: int)
    requires MemeCatalog.WellFormed(t) && MemeCatalog.UniqueNames(t.rows) && InStep(t.rows, bucket)
    requires MemeCatalog.Lookup(t, id).Some?
    ensures var name := MemeCatalog.Lookup(t, id).value.name;
            var (bucket', res) := BlobStore.DeleteSpec(bucket, name);
            var o := MemeCatalog.DeleteSpec(t, id, MemeCatalog.Answered(res.Ok?));
            && res.Ok? && o.result.Ok?
            && BlobStore.Get(bucket', name).Err? && MemeCatalog.Lookup(o.table, id).None?
            && InStep(o.table.rows, bucket') && MemeCatalog.UniqueNames(o.table.rows)
  {
  }
}
