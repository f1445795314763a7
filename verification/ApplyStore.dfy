/** The key/value state machine behind a Raft group (`HeedApplyStorage` in replication/src/apply_store.rs). */
module ApplyStore {
  import opened Wrappers
  import opened RaftTypes

  /** Snapshot bytes: either the JSON image of a map, or bytes that do not decode. */
  datatype SnapshotData = Image(content: map<string, string>) | Undecodable(bytes: seq<nat>)

  class HeedApplyStorage {
    var db: map<string, string>
    var snapshot: Option<(SnapshotData, u64)>

    constructor ()
      ensures db == map[] && snapshot == None
    {
      db, snapshot := map[], None;
    }

    /** Reopening keeps the database and forgets the cached snapshot. */
    method Reopen()
      modifies this
      ensures db == old(db) && snapshot == None
    {
      snapshot := None;
    }

    method Apply(req: Request) returns (r: Result<string, ()>)
      modifies this`db
      ensures req.Put? ==> r == Ok(req.value) && db == old(db)[req.key := req.value]
      ensures req.Malformed? ==> r == Err(()) && db == old(db)
    {
      if req.Malformed? {
        return Err(());
      }
      db := db[req.key := req.value];
      r := Ok(req.value);
    }

    /** Copies every pair of the database into the snapshot image. */
    method CreateSnapshot(appliedId: u64) returns (data: SnapshotData, index: u64)
      modifies this`snapshot
      ensures data == Image(db) && index == appliedId && snapshot == Some((data, index))
    {
      var image: map<string, string> := map[];
      var rest := db.Keys;
      while rest != {}
        invariant rest <= db.Keys
        invariant image == map k | k in db && k !in rest :: db[k]
        decreases |rest|
      {
        var k :| k in rest;
        image := image[k := db[k]];
        rest := rest - {k};
      }
      assert image == db;
      data, index := Image(image), appliedId;
      snapshot := Some((data, index));
    }

    /** Clears the database and writes every pair of the image. */
    method Restore(data: SnapshotData) returns (ok: bool)
      modifies this`db
      ensures ok == data.Image?
      ensures db == if ok then data.content else old(db)
    {
      if data.Undecodable? {
        return false;
      }
      db := map[];
      var rest := data.content.Keys;
      while rest != {}
        invariant rest <= data.content.Keys
        invariant db == map k | k in data.content && k !in rest :: data.content[k]
        decreases |rest|
      {
        var k :| k in rest;
        db := db[k := data.content[k]];
        rest := rest - {k};
      }
      assert db == data.content;
      ok := true;
    }
  }
}
