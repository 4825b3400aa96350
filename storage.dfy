/**
 * The persistent state the guestbook works on, with the database and the file
 * entity storage abstracted: the guestbook_entries table as a map from id to
 * row plus the auto-increment counter, and the managed file table.
 */
module Storage {
  import opened Wrappers

  /** One row of guestbook_entries, without its id (the key of the table). */
  datatype Entry = Entry(
    name: string,
    email: string,
    phone: string,
    feedback: string,
    avatar: Option<string>,
    feedbackImage: Option<string>,
    created: int)

  /** The guestbook_entries table. */
  class EntryTable {
    var rows: map<int, Entry>
    /** The id the auto-increment column hands out next. */
    var nextId: int

    ghost predicate Valid()
      reads this
    {
      1 <= nextId && forall id :: id in rows ==> 1 <= id < nextId
    }

    constructor ()
      ensures Valid() && rows == map[] && nextId == 1
    {
      rows := map[];
      nextId := 1;
    }

    /** INSERT: the row gets a fresh id. */
    method Insert(e: Entry) returns (id: int)
      requires Valid()
      modifies this
      ensures Valid()
      ensures id == old(nextId) && id !in old(rows)
      ensures rows == old(rows)[id := e] && nextId == old(nextId) + 1
    {
      id := nextId;
      rows := rows[id := e];
      nextId := nextId + 1;
    }

    /** UPDATE ... WHERE id = :id: a no-op when no row has that id. */
    method Update(id: int, e: Entry)
      requires Valid()
      modifies this`rows
      ensures Valid()
      ensures rows == if id in old(rows) then old(rows)[id := e] else old(rows)
    {
      if id in rows {
        rows := rows[id := e];
      }
    }

    /** DELETE ... WHERE id = :id: a no-op when no row has that id. */
    method Delete(id: int)
      requires Valid()
      modifies this`rows
      ensures Valid()
      ensures rows == old(rows) - {id}
    {
      rows := rows - {id};
    }
  }

  /** A file entity: its base name, byte size, storage URI and whether it is permanent (not temporary). */
  datatype FileRecord = FileRecord(filename: string, size: nat, uri: string, permanent: bool)

  /**
   * What a managed_file element submits: nothing, some non-array value, or the
   * list of file ids it holds.
   */
  datatype FileValue = Null | Scalar(text: string) | Fids(fids: seq<int>)

  /** The file entity storage. */
  class FileStorage {
    var files: map<int, FileRecord>

    constructor (files: map<int, FileRecord>)
      ensures this.files == files
    {
      this.files := files;
    }

    /** `$file->setPermanent(); $file->save();` */
    method SetPermanent(fid: int)
      requires fid in files
      modifies this
      ensures files == old(files)[fid := old(files)[fid].(permanent := true)]
    {
      files := files[fid := files[fid].(permanent := true)];
    }
  }

  /** `$file_storage->load($fid)`: NULL for a NULL id or an id without a file. */
  function Load(files: map<int, FileRecord>, fid: Option<int>): Option<FileRecord> {
    if fid.Some? && fid.value in files then Some(files[fid.value]) else None
  }

  /** `!empty($v) && is_array($v)` and then `reset($v)`: the first id of a non-empty id list. */
  function FirstFid(v: FileValue): Option<int> {
    if v.Fids? && v.fids != [] then Some(v.fids[0]) else None
  }
}
