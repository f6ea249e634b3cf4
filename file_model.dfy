/**
 * The `File` table (server/models/file.model.ts): one row per uploaded file, with an
 * auto-incremented id, its owner, its name, its bytes, a moderation status that starts
 * at "pending" and an optional reason.
 */
module FileModel {
  import opened Wrappers

  /** The moderation states a file passes through. */
  datatype Status = Pending | Approved | Rejected | Failed

  /** The string stored in the `status` column. */
  function StatusName(s: Status): string {
    match s
    case Pending => "pending"
    case Approved => "approved"
    case Rejected => "rejected"
    case Failed => "failed"
  }

  /** The stored status strings tell the states apart. */
  lemma StatusNameInjective(s: Status, t: Status)
    requires s != t
    ensures StatusName(s) != StatusName(t)
  {
    assert StatusName(s)[0] != StatusName(t)[0] || |StatusName(s)| != |StatusName(t)|;
  }

  datatype FileRecord = FileRecord(
    id: nat,
    userId: nat,
    filename: string,
    fileData: seq<bv8>,
    status: Status,
    reason: Option<string>)

  /** The row `File.create` inserts for an upload: status "pending", no reason. */
  function NewRecord(id: nat, userId: nat, filename: string, fileData: seq<bv8>): FileRecord {
    FileRecord(id, userId, filename, fileData, Pending, None)
  }

  /** A reason is present exactly for the rejected and the failed files. */
  predicate ReasonMatchesStatus(r: FileRecord) {
    r.reason.Some? <==> (r.status == Rejected || r.status == Failed)
  }

  /** `File.update({status}, {where: {id}})`: the row with that id, if any, gets the new status. */
  function SetStatus(rows: map<nat, FileRecord>, id: nat, status: Status): (r: map<nat, FileRecord>)
    ensures r.Keys == rows.Keys
    ensures forall k :: k in rows && k != id ==> r[k] == rows[k]
    ensures id in rows ==> r[id] == rows[id].(status := status)
  {
    if id in rows then rows[id := rows[id].(status := status)] else rows
  }

  /** `File.update({status, reason}, {where: {id}})`. */
  function SetStatusAndReason(rows: map<nat, FileRecord>, id: nat, status: Status, reason: string): (r: map<nat, FileRecord>)
    ensures r.Keys == rows.Keys
    ensures forall k :: k in rows && k != id ==> r[k] == rows[k]
    ensures id in rows ==> r[id] == rows[id].(status := status, reason := Some(reason))
  {
    if id in rows then rows[id := rows[id].(status := status, reason := Some(reason))] else rows
  }

  /** Every row sits under its own id. */
  predicate KeyedById(rows: map<nat, FileRecord>) {
    forall id :: id in rows ==> rows[id].id == id
  }

  /** The table: rows by primary key and the next value of the auto-increment counter. */
  class FileTable {
    var rows: map<nat, FileRecord>
    var nextId: nat

    /** Every row sits under its own id, and every id was handed out before `nextId`. */
    ghost predicate Valid()
      reads this
    {
      1 <= nextId && KeyedById(rows) &&
      forall id :: id in rows ==> 1 <= id < nextId
    }

    constructor ()
      ensures Valid()
      ensures rows == map[] && nextId == 1
    {
      rows := map[];
      nextId := 1;
    }

    /** `File.create`: inserts a pending row under a fresh id and returns it. */
    method Create(userId: nat, filename: string, fileData: seq<bv8>) returns (rec: FileRecord)
      requires Valid()
      modifies this
      ensures Valid()
      ensures rec == NewRecord(old(nextId), userId, filename, fileData)
      ensures rec.id !in old(rows)
      ensures rows == old(rows)[rec.id := rec]
      ensures nextId == old(nextId) + 1
    {
      rec := NewRecord(nextId, userId, filename, fileData);
      rows := rows[nextId := rec];
      nextId := nextId + 1;
    }

    method UpdateStatus(id: nat, status: Status)
      requires Valid()
      modifies this
      ensures Valid()
      ensures rows == SetStatus(old(rows), id, status)
      ensures nextId == old(nextId)
    {
      rows := SetStatus(rows, id, status);
    }

    method UpdateStatusAndReason(id: nat, status: Status, reason: string)
      requires Valid()
      modifies this
      ensures Valid()
      ensures rows == SetStatusAndReason(old(rows), id, status, reason)
      ensures nextId == old(nextId)
    {
      rows := SetStatusAndReason(rows, id, status, reason);
    }
  }
}
