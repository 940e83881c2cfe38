/** The relational catalog of memes kept by the image service
    (`MemeRepository`): one row per uploaded object, written after the blob
    service has stored the object, and keyed by name when an upload is
    reconciled with the table. */
module MemeCatalog {
  import opened Wrappers

  /** A row of the `memes` table; `id` is `None` until the row is inserted. */
  datatype Meme = Meme(id: Option<nat>, name: string, description: Option<string>, lastUpdatedAt: int)

  /** The fields of a `MemeCreate`, built from the blob service's reply. */
  datatype Synced = Synced(name: string, description: Option<string>, lastUpdatedAt: int)

  /** What the gateway's `create_or_update` yields once its JSON reply has been
      turned into a `MemeCreate`: the synchronised fields, or a failure (the
      HTTP client raised, or the reply did not validate as a `MemeCreate`). */
  datatype CreateReply = Stored(synced: Synced) | CreateFailed

  /** What the gateway's `delete_file` yields: a JSON reply of any status,
      whether the blob service found the object or not; or something the
      HTTP client raises: a transport failure, a reply whose body is not
      JSON (the blob service's plain-text server error), or a login request
      before the call that fails or whose reply is not JSON. A login refused
      with a JSON body raises nothing; the delete is still sent. */
  datatype DeleteReply = Answered(blobFound: bool) | Unreachable

  /** A `MemeUpdate` holding only the fields it sets; an unset field is `None`. */
  datatype Patch = Patch(name: Option<string>, description: Option<Option<string>>, lastUpdatedAt: Option<int>)

  /** An uploaded file as the gateway forwards it. */
  datatype Upload = Upload(fileName: string, content: seq<bv8>)

  /** A request sent to the blob service through the gateway. */
  datatype GatewayCall = CreateOrUpdateCall(file: Upload, description: string) | DeleteFileCall(name: string)

  datatype Error = EntityDoesNotExist | GatewayError

  /** The table and the next value of its id sequence. */
  datatype Table = Table(rows: seq<Meme>, nextId: nat)

  /** What one repository operation does: the table after it, the gateway
      calls it made, and what it returns or raises. */
  datatype Outcome<R> = Outcome(table: Table, sent: seq<GatewayCall>, result: Result<R, Error>)

  /** Every committed row has an id drawn from the sequence, and no two rows
      share an id (the primary key). */
  ghost predicate WellFormed(t: Table) {
    && (forall i :: 0 <= i < |t.rows| ==> t.rows[i].id.Some? && t.rows[i].id.value < t.nextId)
    && (forall i, j :: 0 <= i < j < |t.rows| ==> t.rows[i].id != t.rows[j].id)
  }

  /** No two rows share a name: what the name-keyed upsert keeps when nothing
      else writes names. */
  ghost predicate UniqueNames(rows: seq<Meme>) {
    forall i, j :: 0 <= i < j < |rows| ==> rows[i].name != rows[j].name
  }

  /** A row carries exactly the fields the blob service reported. */
  predicate Reflects(row: Meme, s: Synced) {
    row.name == s.name && row.description == s.description && row.lastUpdatedAt == s.lastUpdatedAt
  }

  /** `select ... where name == name` followed by `.first()`. */
  function FirstWithName(rows: seq<Meme>, name: string): (r: Option<nat>)
    ensures r.Some? ==> r.value < |rows| && rows[r.value].name == name
    ensures r.Some? ==> forall j :: 0 <= j < r.value ==> rows[j].name != name
    ensures r.None? ==> forall j :: 0 <= j < |rows| ==> rows[j].name != name
  {
    if |rows| == 0 then None
    else if rows[0].name == name then Some(0)
    else match FirstWithName(rows[1..], name)
      case None => None
      case Some(i) => Some(i + 1)
  }

  /** `select ... where id == id` followed by `.first()`. */
  function FirstWithId(rows: seq<Meme>, id: int): (r: Option<nat>)
    ensures r.Some? ==> r.value < |rows| && rows[r.value].id == Some(id)
    ensures r.Some? ==> forall j :: 0 <= j < r.value ==> rows[j].id != Some(id)
    ensures r.None? ==> forall j :: 0 <= j < |rows| ==> rows[j].id != Some(id)
  {
    if |rows| == 0 then None
    else if rows[0].id == Some(id) then Some(0)
    else match FirstWithId(rows[1..], id)
      case None => None
      case Some(i) => Some(i + 1)
  }

  /** `_upsert`: the first row with the synchronised name, with every field of
      the `MemeCreate` written over it, or a new row without an id. */
  function Upsert(rows: seq<Meme>, s: Synced): (item: Meme)
    ensures Reflects(item, s)
    ensures match FirstWithName(rows, s.name)
            case Some(i) => item.id == rows[i].id
            case None => item.id == None
  {
    var fromCreate := Meme(None, s.name, s.description, s.lastUpdatedAt);
    var target := match FirstWithName(rows, s.name)
                  case Some(i) => rows[i]
                  case None => fromCreate;
    target.(name := fromCreate.name, description := fromCreate.description, lastUpdatedAt := fromCreate.lastUpdatedAt)
  }

  /** An item `_add_to_db` can commit: a new one, or one loaded from the table. */
  ghost predicate Storable(t: Table, item: Meme) {
    item.id.None? || FirstWithId(t.rows, item.id.value).Some?
  }

  /** `_add_to_db`: add, commit and refresh. A new item is appended and
      receives the next id of the sequence; an item loaded from the table is
      written back over its own row. */
  function Store(t: Table, item: Meme): (r: (Table, Meme))
    requires Storable(t, item)
    ensures r.1.name == item.name && r.1.description == item.description && r.1.lastUpdatedAt == item.lastUpdatedAt
    ensures item.id.None? ==> r.1.id == Some(t.nextId) && r.0.rows == t.rows + [r.1] && r.0.nextId == t.nextId + 1
    ensures item.id.Some? ==> r.1 == item && r.0.nextId == t.nextId && |r.0.rows| == |t.rows|
    ensures item.id.Some? ==> var i := FirstWithId(t.rows, item.id.value).value;
                              r.0.rows[i] == item && forall j :: 0 <= j < |t.rows| && j != i ==> r.0.rows[j] == t.rows[j]
    ensures WellFormed(t) ==> WellFormed(r.0)
  {
    match item.id
    case None =>
      var stored := item.(id := Some(t.nextId));
      (Table(t.rows + [stored], t.nextId + 1), stored)
    case Some(k) =>
      var i := FirstWithId(t.rows, k).value;
      (Table(t.rows[i := item], t.nextId), item)
  }

  /** `get`: the row with that id, or `None`. The `raise` of the source is
      never reached, because the scalar result it tests is always truthy. */
  function Lookup(t: Table, id: int): (r: Option<Meme>)
    ensures r.Some? ==> r.value in t.rows && r.value.id == Some(id)
    ensures r.None? <==> forall row :: row in t.rows ==> row.id != Some(id)
  {
    match FirstWithId(t.rows, id)
    case Some(i) => Some(t.rows[i])
    case None => None
  }

  /** `list`: at most `limit` consecutive rows starting at `offset`. */
  function Window(t: Table, offset: nat := 0, limit: nat := 50): (page: seq<Meme>)
    ensures |page| == if offset >= |t.rows| then 0 else if limit < |t.rows| - offset then limit else |t.rows| - offset
    ensures forall k :: 0 <= k < |page| ==> page[k] == t.rows[offset + k]
  {
    if offset >= |t.rows| then []
    else if limit < |t.rows| - offset then t.rows[offset..offset + limit]
    else t.rows[offset..]
  }

  /** The fields an update sets overwrite the item's; the others, and the id,
      keep their values. */
  function ApplyPatch(item: Meme, patch: Patch): (r: Meme)
    ensures r.id == item.id
    ensures r.name == (if patch.name.Some? then patch.name.value else item.name)
    ensures r.description == (if patch.description.Some? then patch.description.value else item.description)
    ensures r.lastUpdatedAt == (if patch.lastUpdatedAt.Some? then patch.lastUpdatedAt.value else item.lastUpdatedAt)
  {
    var named := if patch.name.Some? then item.(name := patch.name.value) else item;
    var described := if patch.description.Some? then named.(description := patch.description.value) else named;
    if patch.lastUpdatedAt.Some? then described.(lastUpdatedAt := patch.lastUpdatedAt.value) else described
  }

  /** A row of a well-formed table is the one its id finds. */
  lemma LookupFinds(t: Table, i: nat)
    requires WellFormed(t) && i < |t.rows|
    ensures Lookup(t, t.rows[i].id.value) == Some(t.rows[i])
  {
  }

  /** `create`: store the upload through the gateway, then upsert the row
      named by the reply and commit. A failed gateway call leaves the table
      as it was. */
  function CreateSpec(t: Table, file: Upload, description: string, reply: CreateReply): (o: Outcome<Meme>)
    requires WellFormed(t)
    ensures o.sent == [CreateOrUpdateCall(file, description)]
    ensures WellFormed(o.table)
    ensures reply.CreateFailed? ==> o.table == t && o.result == Err(GatewayError)
    ensures reply.Stored? ==> o.result.Ok? && Reflects(o.result.value, reply.synced)
    ensures reply.Stored? ==>
      match FirstWithName(t.rows, reply.synced.name)
      case Some(i) =>
        && o.result.value.id == t.rows[i].id
        && o.table.nextId == t.nextId
        && |o.table.rows| == |t.rows|
        && o.table.rows[i] == o.result.value
        && forall j :: 0 <= j < |t.rows| && j != i ==> o.table.rows[j] == t.rows[j]
      case None =>
        && o.result.value.id == Some(t.nextId)
        && o.table.nextId == t.nextId + 1
        && o.table.rows == t.rows + [o.result.value]
  {
    var sent := [CreateOrUpdateCall(file, description)];
    match reply
    case CreateFailed => Outcome(t, sent, Err(GatewayError))
    case Stored(s) =>
      var item := Upsert(t.rows, s);
      assert Storable(t, item) by {
        var found := FirstWithName(t.rows, s.name);
        if found.Some? { assert t.rows[found.value].id == Some(item.id.value); }
      }
      var (t', stored) := Store(t, item);
      Outcome(t', sent, Ok(stored))
  }

  /** `update`: a missing id raises `EntityDoesNotExist` and changes nothing;
      otherwise the patch is applied to that row alone and committed. The
      blob service is never called. */
  function UpdateSpec(t: Table, id: int, patch: Patch): (o: Outcome<Meme>)
    requires WellFormed(t)
    ensures o.sent == []
    ensures WellFormed(o.table) && o.table.nextId == t.nextId && |o.table.rows| == |t.rows|
    ensures Lookup(t, id).None? ==> o.table == t && o.result == Err(EntityDoesNotExist)
    ensures Lookup(t, id).Some? ==> o.result == Ok(ApplyPatch(Lookup(t, id).value, patch))
    ensures Lookup(t, id).Some? ==> Lookup(o.table, id) == Some(o.result.value)
    ensures forall j :: 0 <= j < |t.rows| && t.rows[j].id != Some(id) ==> o.table.rows[j] == t.rows[j]
  {
    match Lookup(t, id)
    case None => Outcome(t, [], Err(EntityDoesNotExist))
    case Some(item) =>
      var (t', stored) := Store(t, ApplyPatch(item, patch));
      LookupFinds(t', FirstWithId(t.rows, id).value);
      Outcome(t', [], Ok(stored))
  }

  /** The rows without the one at index `i`, the others in their order. */
  function RemoveAt(rows: seq<Meme>, i: nat): (r: seq<Meme>)
    requires i < |rows|
    ensures |r| == |rows| - 1
    ensures forall j :: 0 <= j < i ==> r[j] == rows[j]
    ensures forall j :: i <= j < |r| ==> r[j] == rows[j + 1]
  {
    rows[..i] + rows[i + 1..]
  }

  /** Removing a row of a well-formed table keeps it well-formed, and its id
      is then carried by no row. */
  lemma RemoveAtDropsId(t: Table, i: nat)
    requires WellFormed(t) && i < |t.rows|
    ensures WellFormed(Table(RemoveAt(t.rows, i), t.nextId))
    ensures forall j :: 0 <= j < |t.rows| - 1 ==> RemoveAt(t.rows, i)[j].id != t.rows[i].id
  {
    var r := RemoveAt(t.rows, i);
    forall j | 0 <= j < |r| ensures r[j].id != t.rows[i].id {
      if j >= i { assert r[j] == t.rows[j + 1]; }
    }
  }

  /** No row carries the id, so a lookup finds nothing. */
  lemma LookupMissing(t: Table, id: int)
    requires forall j :: 0 <= j < |t.rows| ==> t.rows[j].id != Some(id)
    ensures Lookup(t, id).None?
  {
  }

  /** `delete`: a missing id raises `EntityDoesNotExist`. Otherwise the blob
      is deleted through the gateway first; if that call raises, the row
      stays, and whatever a JSON reply says, the row is then removed. */
  function DeleteSpec(t: Table, id: int, reply: DeleteReply): (o: Outcome<()>)
    requires WellFormed(t)
    ensures WellFormed(o.table) && o.table.nextId == t.nextId
    ensures Lookup(t, id).None? ==> o == Outcome(t, [], Err(EntityDoesNotExist))
    ensures Lookup(t, id).Some? ==> o.sent == [DeleteFileCall(Lookup(t, id).value.name)]
    ensures Lookup(t, id).Some? && reply.Unreachable? ==> o.table == t && o.result == Err(GatewayError)
    ensures Lookup(t, id).Some? && reply.Answered? ==>
      && o.result == Ok(())
      && Lookup(o.table, id).None?
      && var i := FirstWithId(t.rows, id).value;
         && |o.table.rows| == |t.rows| - 1
         && (forall j :: 0 <= j < i ==> o.table.rows[j] == t.rows[j])
         && (forall j :: i <= j < |o.table.rows| ==> o.table.rows[j] == t.rows[j + 1])
  {
    match FirstWithId(t.rows, id)
    case None => Outcome(t, [], Err(EntityDoesNotExist))
    case Some(i) =>
      var sent := [DeleteFileCall(t.rows[i].name)];
      match reply
      case Unreachable => Outcome(t, sent, Err(GatewayError))
      case Answered(_) =>
        var t' := Table(RemoveAt(t.rows, i), t.nextId);
        RemoveAtDropsId(t, i);
        LookupMissing(t', id);
        Outcome(t', sent, Ok(()))
  }

  /** Uploading again under a name already in the catalog keeps that row's id
      and the number of rows; only the reported fields change. */
  lemma {:induction false} ReuploadKeepsIdentity(t: Table, f1: Upload, d1: string, s1: Synced, f2: Upload, d2: string, s2: Synced)
    requires WellFormed(t) && s1.name == s2.name
    ensures var o1 := CreateSpec(t, f1, d1, Stored(s1));
            var o2 := CreateSpec(o1.table, f2, d2, Stored(s2));
            && o2.result.value.id == o1.result.value.id
            && |o2.table.rows| == |o1.table.rows|
            && Reflects(o2.result.value, s2)
            && Lookup(o2.table, o1.result.value.id.value) == Some(o2.result.value)
  {
    var o1 := CreateSpec(t, f1, d1, Stored(s1));
    var i :| 0 <= i < |o1.table.rows| && o1.table.rows[i] == o1.result.value
           && forall j :: 0 <= j < i ==> o1.table.rows[j].name != s1.name;
    var o2 := CreateSpec(o1.table, f2, d2, Stored(s2));
    assert FirstWithName(o1.table.rows, s2.name) == Some(i);
    LookupFinds(o2.table, i);
  }

  /** Create never introduces a second row with the same name. */
  lemma CreateKeepsNamesUnique(t: Table, file: Upload, description: string, reply: CreateReply)
    requires WellFormed(t) && UniqueNames(t.rows)
    ensures UniqueNames(CreateSpec(t, file, description, reply).table.rows)
  {
  }

  /** The catalog held by the image service's repository. */
  class MemeRepository {
    var rows: seq<Meme>
    var nextId: nat
    /** The requests sent to the blob service so far, oldest first. */
    var sent: seq<GatewayCall>

    function Snapshot(): Table
      reads this
    {
      Table(rows, nextId)
    }

    ghost predicate Valid()
      reads this
    {
      WellFormed(Snapshot())
    }

    /** An empty table whose id sequence starts at 1. */
    constructor ()
      ensures Valid() && rows == [] && nextId == 1 && sent == []
    {
      rows, nextId, sent := [], 1, [];
    }

    method AddToDb(item: Meme) returns (stored: Meme)
      requires Valid() && Storable(Snapshot(), item)
      modifies this
      ensures Valid() && sent == old(sent)
      ensures (Snapshot(), stored) == Store(old(Snapshot()), item)
    {
      if item.id.None? {
        stored := item.(id := Some(nextId));
        rows := rows + [stored];
        nextId := nextId + 1;
      } else {
        var i := FirstWithId(rows, item.id.value).value;
        rows := rows[i := item];
        stored := item;
      }
    }

    method Create(file: Upload, description: string, reply: CreateReply) returns (r: Result<Meme, Error>)
      requires Valid()
      modifies this
      ensures Valid()
      ensures var o := CreateSpec(old(Snapshot()), file, description, reply);
              Snapshot() == o.table && sent == old(sent) + o.sent && r == o.result
    {
      sent := sent + [CreateOrUpdateCall(file, description)];
      match reply {
        case CreateFailed =>
          r := Err(GatewayError);
        case Stored(s) =>
          var item := Upsert(rows, s);
          var found := FirstWithName(rows, s.name);
          if found.Some? { assert rows[found.value].id == Some(item.id.value); }
          var stored := AddToDb(item);
          r := Ok(stored);
      }
    }

    method Get(id: int) returns (r: Option<Meme>)
      ensures r == Lookup(Snapshot(), id)
    {
      var found := FirstWithId(rows, id);
      if found.Some? {
        r := Some(rows[found.value]);
      } else {
        r := None;
      }
    }

    method List(offset: nat := 0, limit: nat := 50) returns (page: seq<Meme>)
      ensures page == Window(Snapshot(), offset, limit)
    {
      if offset >= |rows| {
        page := [];
      } else if limit < |rows| - offset {
        page := rows[offset..offset + limit];
      } else {
        page := rows[offset..];
      }
    }

    method Update(id: int, patch: Patch) returns (r: Result<Meme, Error>)
      requires Valid()
      modifies this
      ensures Valid()
      ensures var o := UpdateSpec(old(Snapshot()), id, patch);
              Snapshot() == o.table && sent == old(sent) + o.sent && r == o.result
    {
      var item := Get(id);
      if item.Some? {
        var stored := AddToDb(ApplyPatch(item.value, patch));
        r := Ok(stored);
      } else {
        r := Err(EntityDoesNotExist);
      }
    }

    method Delete(id: int, reply: DeleteReply) returns (r: Result<(), Error>)
      requires Valid()
      modifies this
      ensures Valid()
      ensures var o := DeleteSpec(old(Snapshot()), id, reply);
              Snapshot() == o.table && sent == old(sent) + o.sent && r == o.result
    {
      var item := Get(id);
      if item.None? {
        r := Err(EntityDoesNotExist);
        return;
      }
      sent := sent + [DeleteFileCall(item.value.name)];
      if reply.Unreachable? {
        r := Err(GatewayError);
        return;
      }
      var i := FirstWithId(rows, id).value;
      rows := RemoveAt(rows, i);
      r := Ok(());
    }
  }

  /** The upload, list, fetch, delete and fetch sequence the route tests walk
      through, on an empty catalog: the upload gets id 1, the listing and the
      fetch show it with its description, and after the delete it is gone. */
  method UploadListGetDelete(shark: Upload, uploadedAt: int)
    returns (created: Result<Meme, Error>, listed: seq<Meme>, fetched: Option<Meme>, deleted: Result<(), Error>, refetched: Option<Meme>)
    ensures created == Ok(Meme(Some(1), "shark.jpg", Some("test"), uploadedAt))
    ensures listed == [created.value] && fetched == Some(created.value)
    ensures deleted == Ok(()) && refetched == None
  {
    var repo := new MemeRepository();
    created := repo.Create(shark, "test", Stored(Synced("shark.jpg", Some("test"), uploadedAt)));
    listed := repo.List();
    fetched := repo.Get(1);
    deleted := repo.Delete(1, Answered(true));
    refetched := repo.Get(1);
  }
}
