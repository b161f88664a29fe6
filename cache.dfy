/** The SQLite cache of hashes: the `images` table keyed by file path, seen as
    a map from path to row. `INSERT OR REPLACE` writes a row over whatever was
    stored under its path; `UPDATE ... WHERE filepath = old` moves a row to a
    new key, and fails when the new key is already taken. */
module Cache {
  import opened Common
  import opened Paths
  import opened ImageProcessing

  /** The columns of a row besides its key `filepath`. */
  datatype Row = Row(hash: Option<string>, readMethod: string, size: nat, mtime: real)

  /** What `get_metadata_map` reports for a path: `(size, mtime, hash)`. */
  datatype Meta = Meta(size: nat, mtime: real, hash: Option<string>)

  /** The row that `upsert_entries` writes for one worker result. */
  function RowPair(e: WorkerResult): (RelPath, Row)
  {
    (e.relpath, Row(e.hash, e.readMethod, e.size, e.mtime))
  }

  function RowPairs(batch: seq<WorkerResult>): (r: seq<(RelPath, Row)>)
    ensures |r| == |batch| && forall i :: 0 <= i < |batch| ==> r[i] == RowPair(batch[i])
  {
    seq(|batch|, i requires 0 <= i < |batch| => RowPair(batch[i]))
  }

  /** The table after `INSERT OR REPLACE` of each entry of the batch in turn. */
  ghost function Upserted(rows: map<RelPath, Row>, batch: seq<WorkerResult>): map<RelPath, Row>
  {
    Overlay(rows, RowPairs(batch))
  }

  /** The `(size, mtime, hash)` of every stored row. */
  function MetadataOf(rows: map<RelPath, Row>): map<RelPath, Meta>
  {
    map p | p in rows :: Meta(rows[p].size, rows[p].mtime, rows[p].hash)
  }

  /** The table after `UPDATE images SET filepath = newPath, size, mtime WHERE
      filepath = oldPath`. The statement matches no row when `oldPath` is
      absent; it violates the primary key when `newPath` belongs to another row,
      which aborts it with nothing changed. */
  function Renamed(rows: map<RelPath, Row>, oldPath: RelPath, newPath: RelPath, size: nat, mtime: real)
    : (r: Result<map<RelPath, Row>>)
    ensures r.Failure? <==> oldPath in rows && newPath in rows && newPath != oldPath
    ensures r.Success? && oldPath !in rows ==> r.value == rows
    ensures r.Success? && oldPath in rows ==>
              && r.value.Keys == rows.Keys - {oldPath} + {newPath}
              && r.value[newPath] == Row(rows[oldPath].hash, rows[oldPath].readMethod, size, mtime)
              && forall p :: p in rows && p != oldPath && p != newPath ==> r.value[p] == rows[p]
  {
    if oldPath !in rows then Success(rows)
    else if newPath in rows && newPath != oldPath then Failure("UNIQUE constraint failed: images.filepath")
    else
      var row := rows[oldPath];
      Success((rows - {oldPath})[newPath := Row(row.hash, row.readMethod, size, mtime)])
  }

  /** The table seen through a connection. */
  class CacheStore {
    var rows: map<RelPath, Row>

    /** `init_db` on a file whose table already holds `initial` (empty for a new file). */
    constructor (initial: map<RelPath, Row>)
      ensures rows == initial
    {
      rows := initial;
    }

    /** `get_metadata_map`. */
    method GetMetadataMap() returns (m: map<RelPath, Meta>)
      ensures m == MetadataOf(rows)
    {
      m := map p | p in rows :: Meta(rows[p].size, rows[p].mtime, rows[p].hash);
    }

    /** `upsert_entries`. */
    method UpsertEntries(batch: seq<WorkerResult>)
      modifies this
      ensures rows == Upserted(old(rows), batch)
    {
      var i := 0;
      while i < |batch|
        invariant 0 <= i <= |batch|
        invariant rows == Overlay(old(rows), RowPairs(batch)[..i])
      {
        var (p, row) := RowPair(batch[i]);
        assert RowPairs(batch)[..i + 1][..i] == RowPairs(batch)[..i];
        rows := rows[p := row];
        i := i + 1;
      }
      assert RowPairs(batch)[..|batch|] == RowPairs(batch);
    }

    /** `update_filepath`: on failure the table is left as it was. */
    method UpdateFilepath(oldPath: RelPath, newPath: RelPath, size: nat, mtime: real) returns (r: Result<()>)
      modifies this
      ensures var u := Renamed(old(rows), oldPath, newPath, size, mtime);
              && (u.Success? <==> r.Success?)
              && (u.Success? ==> rows == u.value)
              && (u.Failure? ==> rows == old(rows) && r.error == u.error)
    {
      var u := Renamed(rows, oldPath, newPath, size, mtime);
      if u.Failure? {
        return Failure(u.error);
      }
      rows := u.value;
      return Success(());
    }
  }

  /** After an upsert the stored paths are the old ones plus those of the batch. */
  lemma UpsertKeys(rows: map<RelPath, Row>, batch: seq<WorkerResult>)
    ensures Upserted(rows, batch).Keys == rows.Keys + set i | 0 <= i < |batch| :: batch[i].relpath
  {
    OverlayKeys(rows, RowPairs(batch));
    assert KeysOf(RowPairs(batch)) == set i | 0 <= i < |batch| :: batch[i].relpath by {
      forall p | p in KeysOf(RowPairs(batch)) ensures p in set i | 0 <= i < |batch| :: batch[i].relpath {
        var i :| 0 <= i < |RowPairs(batch)| && RowPairs(batch)[i].0 == p;
      }
    }
  }

  /** An upserted entry's path holds that entry's fields, when no later entry
      of the batch has the same path (the last occurrence wins). */
  lemma UpsertLastWins(rows: map<RelPath, Row>, batch: seq<WorkerResult>, i: nat)
    requires i < |batch|
    requires forall j :: i < j < |batch| ==> batch[j].relpath != batch[i].relpath
    ensures batch[i].relpath in Upserted(rows, batch)
    ensures Upserted(rows, batch)[batch[i].relpath]
            == Row(batch[i].hash, batch[i].readMethod, batch[i].size, batch[i].mtime)
  {
    OverlayLastWins(rows, RowPairs(batch), i);
  }

  /** A path that the batch does not write keeps its row, or its absence; in
      particular an empty batch changes nothing. */
  lemma UpsertUntouched(rows: map<RelPath, Row>, batch: seq<WorkerResult>, p: RelPath)
    requires forall i :: 0 <= i < |batch| ==> batch[i].relpath != p
    ensures (p in Upserted(rows, batch)) == (p in rows)
    ensures p in rows ==> Upserted(rows, batch)[p] == rows[p]
  {
    OverlayUntouched(rows, RowPairs(batch), p);
  }

  /** Loading after an upsert gives back exactly the stored `(size, mtime, hash)`
      of the last entry for each path of the batch, and the old metadata for
      every other path. */
  lemma UpsertThenLoad(rows: map<RelPath, Row>, batch: seq<WorkerResult>, p: RelPath)
    ensures p in MetadataOf(Upserted(rows, batch)) <==>
              p in rows || exists i :: 0 <= i < |batch| && batch[i].relpath == p
    ensures forall i :: (0 <= i < |batch| && batch[i].relpath == p
                         && forall j :: i < j < |batch| ==> batch[j].relpath != p) ==>
              MetadataOf(Upserted(rows, batch))[p] == Meta(batch[i].size, batch[i].mtime, batch[i].hash)
    ensures (forall i :: 0 <= i < |batch| ==> batch[i].relpath != p) && p in rows ==>
              MetadataOf(Upserted(rows, batch))[p] == MetadataOf(rows)[p]
  {
    UpsertKeys(rows, batch);
    forall i | 0 <= i < |batch| && batch[i].relpath == p && (forall j :: i < j < |batch| ==> batch[j].relpath != p)
      ensures MetadataOf(Upserted(rows, batch))[p] == Meta(batch[i].size, batch[i].mtime, batch[i].hash)
    {
      UpsertLastWins(rows, batch, i);
    }
    if forall i :: 0 <= i < |batch| ==> batch[i].relpath != p {
      UpsertUntouched(rows, batch, p);
    }
  }
}
