/**
 * Directory listings (server/utils/filesfolders.ts): the regular files of a directory
 * with their sizes, its sub-directories, and the filter that drops items lying under a
 * list of path prefixes. The file system is read-only here: a map from resolved
 * directory paths to their entries, in the order `readdir` gives them.
 */
module FilesFolders {
  import opened Wrappers
  import Strings
  import opened Sequences
  import opened Paths
  import opened PathValidator

  datatype EntryKind = RegularFile(size: nat) | Directory | OtherKind

  /** A directory entry as `readdir(..., {withFileTypes: true})` returns it. */
  datatype Entry = Entry(name: string, kind: EntryKind)

  /** The `{name, size}` object reported for a regular file. */
  datatype FileInfo = FileInfo(name: string, size: nat)

  /** `readdir` rejects when the path is not an existing directory. */
  datatype FsError = NoSuchDirectory(path: string)

  /** The process working directory and the directories on disk, by resolved path. */
  datatype FileSystem = FileSystem(cwd: AbsolutePath, dirs: map<string, seq<Entry>>)

  /** `fs.readdir(pathname, {withFileTypes: true})`. */
  function ReadDir(fs: FileSystem, pathname: string): (r: Result<seq<Entry>, FsError>)
    ensures r.Ok? <==> Resolve(fs.cwd, [pathname]) in fs.dirs
    ensures r.Ok? ==> r.value == fs.dirs[Resolve(fs.cwd, [pathname])]
  {
    var key := Resolve(fs.cwd, [pathname]);
    if key in fs.dirs then Ok(fs.dirs[key]) else Err(NoSuchDirectory(pathname))
  }

  predicate IsRegularFile(e: Entry) {
    e.kind.RegularFile?
  }

  predicate IsDirectory(e: Entry) {
    e.kind.Directory?
  }

  /** The regular files of a listing as `{name, size}`, in listing order. */
  function FileInfos(entries: seq<Entry>): (r: seq<FileInfo>)
    ensures forall f: FileInfo :: f in r <==> Entry(f.name, RegularFile(f.size)) in entries
    ensures |r| == |Filter(entries, IsRegularFile)|
    ensures forall i :: 0 <= i < |r| ==> Filter(entries, IsRegularFile)[i] == Entry(r[i].name, RegularFile(r[i].size))
  {
    var files := Filter(entries, IsRegularFile);
    assert forall i :: 0 <= i < |files| ==> IsRegularFile(files[i]) by {
      forall i | 0 <= i < |files| ensures IsRegularFile(files[i]) {
        assert files[i] in files;
      }
    }
    var r := seq(|files|, i requires 0 <= i < |files| => FileInfo(files[i].name, files[i].kind.size));
    assert forall f :: f in r ==> Entry(f.name, RegularFile(f.size)) in entries by {
      forall f | f in r ensures Entry(f.name, RegularFile(f.size)) in entries {
        var i :| 0 <= i < |r| && r[i] == f;
        assert files[i] in files;
        assert files[i] == Entry(f.name, RegularFile(f.size));
      }
    }
    assert forall f: FileInfo :: Entry(f.name, RegularFile(f.size)) in entries ==> f in r by {
      forall f: FileInfo | Entry(f.name, RegularFile(f.size)) in entries ensures f in r {
        var e := Entry(f.name, RegularFile(f.size));
        assert e in files;
        var i :| 0 <= i < |files| && files[i] == e;
        assert r[i] == f;
      }
    }
    r
  }

  /**
   * `getFiles(pathname)`: no listing (null) when the path fails the guard, a failure when
   * the directory cannot be read, else the regular files with their sizes.
   */
  function GetFiles(fs: FileSystem, basefolder: string, pathname: string): (r: Result<Option<seq<FileInfo>>, FsError>)
    ensures !IsPathValid(basefolder, pathname) ==> r == Ok(None)
    ensures IsPathValid(basefolder, pathname) ==> (r.Err? <==> ReadDir(fs, pathname).Err?)
    ensures r.Ok? && r.value.Some? ==>
              IsPathValid(basefolder, pathname) &&
              r.value.value == FileInfos(ReadDir(fs, pathname).value) &&
              forall f: FileInfo :: f in r.value.value <==> Entry(f.name, RegularFile(f.size)) in ReadDir(fs, pathname).value
  {
    if !IsPathValid(basefolder, pathname) then Ok(None)
    else
      var entries :- ReadDir(fs, pathname);
      Ok(Some(FileInfos(entries)))
  }

  /** `getFolders(pathname)`: the directory entries of the listing, in listing order. */
  function GetFolders(fs: FileSystem, basefolder: string, pathname: string): (r: Result<Option<seq<Entry>>, FsError>)
    ensures !IsPathValid(basefolder, pathname) ==> r == Ok(None)
    ensures IsPathValid(basefolder, pathname) ==> (r.Err? <==> ReadDir(fs, pathname).Err?)
    ensures r.Ok? && r.value.Some? ==>
              IsPathValid(basefolder, pathname) &&
              r.value.value == Filter(ReadDir(fs, pathname).value, IsDirectory) &&
              IsSubsequence(r.value.value, ReadDir(fs, pathname).value) &&
              forall e :: e in r.value.value <==> e in ReadDir(fs, pathname).value && e.kind == Directory
  {
    if !IsPathValid(basefolder, pathname) then Ok(None)
    else
      var entries :- ReadDir(fs, pathname);
      Ok(Some(Filter(entries, IsDirectory)))
  }

  /** `prefixes.some(rm => s.startsWith(rm))`. */
  predicate StartsWithSome(s: string, prefixes: seq<string>) {
    exists i :: 0 <= i < |prefixes| && Strings.StartsWith(s, prefixes[i])
  }

  /**
   * `removeItemsFromList(items, removeList, attr, pathname)`: keeps the items whose path,
   * resolved against `pathname`, starts with no entry of `removeList`. `pathOf` is the
   * item's `attr` field, or the item itself when `attr` is empty.
   */
  function RemoveItemsFromList<T(==,!new)>(items: seq<T>, removeList: seq<string>, pathOf: T -> string,
                                           cwd: AbsolutePath, pathname: string): (r: seq<T>)
    ensures IsSubsequence(r, items)
    ensures forall x :: x in r <==> x in items && !StartsWithSome(Resolve(cwd, [pathname, pathOf(x)]), removeList)
  {
    Filter(items, x => !StartsWithSome(Resolve(cwd, [pathname, pathOf(x)]), removeList))
  }

  /** With nothing to remove, every item is kept, in order. */
  lemma RemoveNothing<T(!new)>(items: seq<T>, pathOf: T -> string, cwd: AbsolutePath, pathname: string)
    ensures RemoveItemsFromList(items, [], pathOf, cwd, pathname) == items
  {
    FilterKeepsAll(items, x => !StartsWithSome(Resolve(cwd, [pathname, pathOf(x)]), []));
  }

  /** Removing the same prefixes twice removes nothing more. */
  lemma RemoveIdempotent<T(!new)>(items: seq<T>, removeList: seq<string>, pathOf: T -> string,
                                   cwd: AbsolutePath, pathname: string)
    ensures var once := RemoveItemsFromList(items, removeList, pathOf, cwd, pathname);
            RemoveItemsFromList(once, removeList, pathOf, cwd, pathname) == once
  {
    FilterIdempotent(items, x => !StartsWithSome(Resolve(cwd, [pathname, pathOf(x)]), removeList));
  }

  /** With an empty `attr` the item is itself the path that is resolved and tested. */
  lemma RemovePlainPaths(items: seq<string>, removeList: seq<string>, cwd: AbsolutePath, pathname: string)
    ensures forall s :: s in RemoveItemsFromList(items, removeList, x => x, cwd, pathname) <==>
                        s in items && !StartsWithSome(Resolve(cwd, [pathname, s]), removeList)
  {
  }
}
