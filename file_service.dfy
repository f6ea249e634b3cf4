/**
 * The file service (server/services/file.service.ts): request paths mapped into the
 * upload root, the archive guard, the upload loop that stores each file as a pending
 * row and queues a "check-file" job for it, and the owner-scoped lookups.
 */
module FileService {
  import opened Wrappers
  import opened Paths
  import opened PathValidator
  import opened Settings
  import opened FileModel
  import opened Moderation
  import opened ErrorMessages
  import opened Zip

  /** `getFullPath(pathname)`: `join(uploadfolder, pathname)`. */
  function GetFullPath(uploadfolder: string, pathname: string): (fullPath: string)
    ensures Normalize(fullPath) == fullPath
    ensures Plain(pathname) ==> Segments(fullPath) == Segments(uploadfolder) + [pathname]
  {
    JoinNormal(uploadfolder, pathname);
    if Plain(pathname) then JoinPlain(uploadfolder, pathname); Join(uploadfolder, pathname)
    else Join(uploadfolder, pathname)
  }

  /** The request path ".." maps to the storage root itself, which the path guard accepts. */
  lemma ParentOfUploadsIsAccepted(configured: Option<string>, home: string)
    ensures var b := BaseFolder(configured, home);
            GetFullPath(UploadFolder(b), "..") == b && IsPathValid(b, GetFullPath(UploadFolder(b), ".."))
  {
    var b := BaseFolder(configured, home);
    UploadParentIsBase(configured, home);
    AcceptsAnyExtension(b, "");
    assert b + "" == b;
  }

  /**
   * `createZip(pathname)`: fails with `ZippingFolderError` and touches nothing when the
   * mapped path fails the guard; otherwise archives it beside itself at a free path.
   */
  method CreateZip(disk: Disk, basefolder: string, uploadfolder: string, pathname: string) returns (r: Result<string, string>)
    modifies disk
    ensures disk.cwd == old(disk.cwd)
    ensures var fullPath := GetFullPath(uploadfolder, pathname);
            !IsPathValid(basefolder, fullPath) ==> r == Err(ZippingFolderError) && disk.existing == old(disk.existing)
    ensures var fullPath := GetFullPath(uploadfolder, pathname);
            IsPathValid(basefolder, fullPath) ==>
              r.Ok? && Dirname(r.value) == Dirname(fullPath) &&
              !DoesPathExist(old(disk.existing), disk.cwd, r.value) &&
              disk.existing == old(disk.existing) + {Resolve(disk.cwd, [r.value])}
  {
    var fullPath := GetFullPath(uploadfolder, pathname);
    var valid := IsPathValid(basefolder, fullPath);
    if !valid {
      return Err(ZippingFolderError);
    }
    var target, index := ZipFolder(disk, fullPath);
    CandidateLocation(fullPath, index);
    return Ok(target);
  }

  /** A file as the upload middleware hands it over. */
  datatype UploadedFile = UploadedFile(originalname: string, buffer: seq<bv8>)

  /** A queued job: its name and its data. */
  datatype Job = Job(name: string, data: Payload)

  const CheckFile: string := "check-file"

  /** The "file-processing" queue, as the list of jobs added to it. */
  class JobQueue {
    var jobs: seq<Job>

    constructor ()
      ensures jobs == []
    {
      jobs := [];
    }

    /** `queue.add(name, data)`. */
    method Add(name: string, data: Payload)
      modifies this
      ensures jobs == old(jobs) + [Job(name, data)]
    {
      jobs := jobs + [Job(name, data)];
    }
  }

  /** Where the upload loop throws, if it does: the insert or the enqueue of the file at `index`. */
  datatype Fault = CreateFails(index: nat) | EnqueueFails(index: nat)

  /** How many of `n` files get a row before the loop stops. */
  function CreatedCount(n: nat, fault: Option<Fault>): (c: nat)
    ensures c <= n
  {
    match fault
    case None => n
    case Some(CreateFails(k)) => if k < n then k else n
    case Some(EnqueueFails(k)) => if k < n then k + 1 else n
  }

  /** How many of `n` files get a job before the loop stops. */
  function QueuedCount(n: nat, fault: Option<Fault>): (q: nat)
    ensures q <= CreatedCount(n, fault)
    ensures q == CreatedCount(n, fault) <==> !(fault.Some? && fault.value.EnqueueFails? && fault.value.index < n)
  {
    match fault
    case None => n
    case Some(f) => if f.index < n then f.index else n
  }

  /** The pending rows created for the first `n` files, under consecutive ids from `start`. */
  function CreatedRows(start: nat, userId: nat, files: seq<UploadedFile>, n: nat): map<nat, FileRecord>
    requires n <= |files|
    decreases n
  {
    if n == 0 then map[]
    else
      CreatedRows(start, userId, files, n - 1)[start + n - 1 := NewRecord(start + n - 1, userId, files[n - 1].originalname, files[n - 1].buffer)]
  }

  /** The rows created for `n` files are exactly the ids `start` to `start + n - 1`, each the new row for its file. */
  lemma {:induction false} CreatedRowsAt(start: nat, userId: nat, files: seq<UploadedFile>, n: nat, id: nat)
    requires n <= |files|
    ensures id in CreatedRows(start, userId, files, n) <==> start <= id < start + n
    ensures id in CreatedRows(start, userId, files, n) ==>
              CreatedRows(start, userId, files, n)[id] ==
              NewRecord(id, userId, files[id - start].originalname, files[id - start].buffer)
    decreases n
  {
    if n > 0 {
      CreatedRowsAt(start, userId, files, n - 1, id);
    }
  }

  /** One row per file. */
  lemma {:induction false} CreatedRowsSize(start: nat, userId: nat, files: seq<UploadedFile>, n: nat)
    requires n <= |files|
    ensures |CreatedRows(start, userId, files, n).Keys| == n
    decreases n
  {
    if n > 0 {
      var before := CreatedRows(start, userId, files, n - 1);
      var k := start + n - 1;
      CreatedRowsSize(start, userId, files, n - 1);
      CreatedRowsAt(start, userId, files, n - 1, k);
      UpdateAddsKey(before, k, NewRecord(k, userId, files[n - 1].originalname, files[n - 1].buffer));
    }
  }

  lemma UpdateAddsKey(m: map<nat, FileRecord>, k: nat, v: FileRecord)
    requires k !in m
    ensures |m[k := v].Keys| == |m.Keys| + 1
  {
    assert m[k := v].Keys == m.Keys + {k};
  }

  lemma UnionUpdate(a: map<nat, FileRecord>, b: map<nat, FileRecord>, k: nat, v: FileRecord)
    ensures (a + b)[k := v] == a + b[k := v]
  {
  }

  /** The jobs queued for the first `n` files, one per file and in order, naming the ids from `start`. */
  function Enqueued(start: nat, files: seq<UploadedFile>, n: nat): (jobs: seq<Job>)
    requires n <= |files|
    ensures |jobs| == n
    decreases n
  {
    if n == 0 then [] else Enqueued(start, files, n - 1) + [Job(CheckFile, Payload(start + n - 1, Some(files[n - 1].buffer)))]
  }

  /** Job `k` carries the id `start + k` and the bytes of file `k`. */
  lemma {:induction false} EnqueuedAt(start: nat, files: seq<UploadedFile>, n: nat, k: nat)
    requires k < n <= |files|
    ensures Enqueued(start, files, n)[k] == Job(CheckFile, Payload(start + k, Some(files[k].buffer)))
    decreases n
  {
    if k < n - 1 {
      EnqueuedAt(start, files, n - 1, k);
    }
  }

  /**
   * `uploadFiles(files, userId)`: for each file in order, inserts a pending row, then
   * queues a "check-file" job carrying its id and bytes. A fault stops the loop; what
   * was already written stays. The escaping fault, if any, is returned.
   */
  method UploadFiles(table: FileTable, queue: JobQueue, files: seq<UploadedFile>, userId: nat, fault: Option<Fault>)
      returns (thrown: Option<Fault>)
    requires table.Valid()
    modifies table, queue
    ensures table.Valid()
    ensures var c := CreatedCount(|files|, fault);
            table.rows == old(table.rows) + CreatedRows(old(table.nextId), userId, files, c) &&
            table.nextId == old(table.nextId) + c
    ensures queue.jobs == old(queue.jobs) + Enqueued(old(table.nextId), files, QueuedCount(|files|, fault))
    ensures thrown.Some? <==> fault.Some? && fault.value.index < |files|
    ensures thrown.Some? ==> thrown == fault
  {
    ghost var start, rows0 := table.nextId, table.rows;
    var i := 0;
    while i < |files|
      invariant 0 <= i <= |files|
      invariant table.Valid()
      invariant table.nextId == start + i
      invariant table.rows == rows0 + CreatedRows(start, userId, files, i)
      invariant queue.jobs == old(queue.jobs) + Enqueued(start, files, i)
      invariant fault.None? || fault.value.index >= i
    {
      if fault == Some(CreateFails(i)) {
        assert CreatedCount(|files|, fault) == i && QueuedCount(|files|, fault) == i;
        return fault;
      }
      var file := files[i];
      var newFile := table.Create(userId, file.originalname, file.buffer);
      UnionUpdate(rows0, CreatedRows(start, userId, files, i), newFile.id, newFile);
      if fault == Some(EnqueueFails(i)) {
        assert CreatedCount(|files|, fault) == i + 1 && QueuedCount(|files|, fault) == i;
        return fault;
      }
      queue.Add(CheckFile, Payload(newFile.id, Some(file.buffer)));
      i := i + 1;
    }
    assert CreatedCount(|files|, fault) == |files| && QueuedCount(|files|, fault) == |files|;
    return None;
  }

  /** The new rows take ids no existing row has, one per file, each pending with no reason and owned by the uploader. */
  lemma CreatedRowsFresh(rows: map<nat, FileRecord>, start: nat, userId: nat, files: seq<UploadedFile>, n: nat)
    requires n <= |files|
    requires forall id :: id in rows ==> id < start
    ensures var created := CreatedRows(start, userId, files, n);
            |created.Keys| == n &&
            (forall id :: id in created ==> id !in rows) &&
            (forall id :: id in created ==>
               created[id].id == id && created[id].userId == userId &&
               created[id].status == Pending && created[id].reason.None?)
  {
    CreatedRowsSize(start, userId, files, n);
    forall id | id in CreatedRows(start, userId, files, n) ensures id !in rows {
      CreatedRowsAt(start, userId, files, n, id);
    }
    forall id | id in CreatedRows(start, userId, files, n)
      ensures CreatedRows(start, userId, files, n)[id].id == id
    {
      CreatedRowsAt(start, userId, files, n, id);
    }
  }

  /** Every queued job names a row created by the same upload: pending, with the job's bytes. */
  lemma JobsBackedByPendingRows(start: nat, userId: nat, files: seq<UploadedFile>, fault: Option<Fault>)
    ensures var created := CreatedRows(start, userId, files, CreatedCount(|files|, fault));
            var jobs := Enqueued(start, files, QueuedCount(|files|, fault));
            forall k :: 0 <= k < |jobs| ==>
              jobs[k].name == CheckFile &&
              jobs[k].data.fileId in created &&
              created[jobs[k].data.fileId].status == Pending &&
              jobs[k].data.fileData == Some(created[jobs[k].data.fileId].fileData)
  {
    var c, q := CreatedCount(|files|, fault), QueuedCount(|files|, fault);
    forall k | 0 <= k < q
      ensures var job := Enqueued(start, files, q)[k];
              job == Job(CheckFile, Payload(start + k, Some(files[k].buffer))) &&
              job.data.fileId in CreatedRows(start, userId, files, c) &&
              CreatedRows(start, userId, files, c)[job.data.fileId] == NewRecord(start + k, userId, files[k].originalname, files[k].buffer)
    {
      EnqueuedAt(start, files, q, k);
      CreatedRowsAt(start, userId, files, c, start + k);
    }
  }

  /** When the enqueue of file `k` throws, its row exists but no job will ever process it. */
  lemma OrphanRowOnEnqueueFailure(start: nat, userId: nat, files: seq<UploadedFile>, k: nat)
    requires k < |files|
    ensures var fault := Some(EnqueueFails(k));
            var created := CreatedRows(start, userId, files, CreatedCount(|files|, fault));
            var jobs := Enqueued(start, files, QueuedCount(|files|, fault));
            start + k in created && created[start + k].status == Pending &&
            forall j :: 0 <= j < |jobs| ==> jobs[j].data.fileId != start + k
  {
    var fault := Some(EnqueueFails(k));
    CreatedRowsAt(start, userId, files, CreatedCount(|files|, fault), start + k);
    forall j | 0 <= j < k ensures Enqueued(start, files, k)[j].data.fileId != start + k {
      EnqueuedAt(start, files, k, j);
    }
  }

  /** `getFileById(fileId, userId)`: the row with that id, only if the user owns it. */
  function GetFileById(rows: map<nat, FileRecord>, fileId: nat, userId: nat): (r: Option<FileRecord>)
    ensures r.Some? <==> fileId in rows && rows[fileId].userId == userId
    ensures r.Some? ==> r.value == rows[fileId]
  {
    if fileId in rows && rows[fileId].userId == userId then Some(rows[fileId]) else None
  }

  /** `getAllUserFiles(userId)`: the user's rows. */
  function GetAllUserFiles(rows: map<nat, FileRecord>, userId: nat): (r: set<FileRecord>)
    ensures forall f :: f in r <==> f in rows.Values && f.userId == userId
  {
    set f | f in rows.Values && f.userId == userId
  }

  /** A file found by id is among the owner's files, and every owner's file is found by its id. */
  lemma LookupsAgree(rows: map<nat, FileRecord>, userId: nat)
    requires KeyedById(rows)
    ensures forall id :: GetFileById(rows, id, userId).Some? ==> GetFileById(rows, id, userId).value in GetAllUserFiles(rows, userId)
    ensures forall f :: f in GetAllUserFiles(rows, userId) ==> GetFileById(rows, f.id, userId) == Some(f)
  {
    forall f | f in GetAllUserFiles(rows, userId) ensures GetFileById(rows, f.id, userId) == Some(f) {
      var id :| id in rows && rows[id] == f;
    }
  }

  /** Nobody else's file is ever returned by id. */
  lemma NoForeignFiles(rows: map<nat, FileRecord>, fileId: nat, userId: nat, other: nat)
    requires fileId in rows && rows[fileId].userId == other && other != userId
    ensures GetFileById(rows, fileId, userId) == None
    ensures rows[fileId] !in GetAllUserFiles(rows, userId)
  {
  }
}
