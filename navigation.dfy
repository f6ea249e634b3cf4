/**
 * Folder navigation (`navigation` in server/services/file.service.ts): which files and
 * folders of a requested directory an account is shown. The admin sees the unfiltered
 * listing; any other account is filtered by its `navigate` flag, then by its `show`
 * list, or else by its `hide` list.
 */
module Navigation {
  import opened Wrappers
  import Strings
  import opened Sequences
  import opened Paths
  import opened PathValidator
  import opened Settings
  import opened FilesFolders
  import opened FileService
  import opened Authenticator

  /** The `{files, folders}` answer; either side is null when the path fails the guard. */
  datatype Listing = Listing(files: Option<seq<FileInfo>>, folders: Option<seq<Entry>>)

  /** `{files: [], folders: []}`. */
  const Empty: Listing := Listing(Some([]), Some([]))

  /** The account name that sees everything. */
  const Admin: string := "admin"

  /** `getFiles(fullPath)` then `getFolders(fullPath)`, unfiltered. */
  function FullListing(fs: FileSystem, basefolder: string, fullPath: string): (r: Result<Listing, FsError>)
    ensures r.Err? <==> IsPathValid(basefolder, fullPath) && ReadDir(fs, fullPath).Err?
    ensures r.Ok? ==> r.value.files == GetFiles(fs, basefolder, fullPath).value &&
                      r.value.folders == GetFolders(fs, basefolder, fullPath).value
  {
    match GetFiles(fs, basefolder, fullPath)
    case Err(e) => Err(e)
    case Ok(files) => Ok(Listing(files, GetFolders(fs, basefolder, fullPath).value))
  }

  /** `account?.permissions?.navigate ?? true`. */
  function NavigateFlag(account: Option<Account>): (b: bool)
    ensures !b <==> account.Some? && account.value.permissions.Some? && account.value.permissions.value.navigate == Some(false)
  {
    if account.Some? && account.value.permissions.Some? then account.value.permissions.value.navigate.GetOr(true)
    else true
  }

  function ShowOf(account: Option<Account>): Option<seq<string>> {
    if account.Some? then account.value.show else None
  }

  function HideOf(account: Option<Account>): Option<seq<string>> {
    if account.Some? then account.value.hide else None
  }

  /** `show.some(item => fullPath.startsWith(path.join(uploadRoot, item)))`. */
  predicate InShownSubfolder(fullPath: string, uploadRoot: string, show: seq<string>): (b: bool)
    ensures show == [] ==> !b
    ensures forall i :: 0 <= i < |show| && fullPath == Join(uploadRoot, show[i]) ==> b
  {
    exists i :: 0 <= i < |show| && Strings.StartsWith(fullPath, Join(uploadRoot, show[i]))
  }

  /** At the upload root with `show` set: no files, and the folders whose name starts with some entry. */
  function ShowAtRoot(allFolders: Option<seq<Entry>>, show: seq<string>): (l: Listing)
    ensures allFolders.None? ==> l == Empty
    ensures l.files == Some([]) && l.folders.Some?
    ensures allFolders.Some? ==> IsSubsequence(l.folders.value, allFolders.value)
    ensures forall e :: e in l.folders.value <==> allFolders.Some? && e in allFolders.value && StartsWithSome(e.name, show)
  {
    if allFolders.None? then Empty
    else Listing(Some([]), Some(Filter(allFolders.value, (e: Entry) => StartsWithSome(e.name, show))))
  }

  /** `hide.map(item => path.resolve(path.join(uploadRoot, item)))`. */
  function AbsoluteHide(cwd: AbsolutePath, uploadRoot: string, hideList: seq<string>): (r: seq<string>)
    ensures |r| == |hideList|
    ensures forall i :: 0 <= i < |hideList| ==> r[i] == Resolve(cwd, [Join(uploadRoot, hideList[i])])
  {
    seq(|hideList|, i requires 0 <= i < |hideList| => Resolve(cwd, [Join(uploadRoot, hideList[i])]))
  }

  function FileName(f: FileInfo): string {
    f.name
  }

  function EntryName(e: Entry): string {
    e.name
  }

  /** With `hide` set: both lists, null read as empty, without the items under a hidden path. */
  function HideFrom(listing: Listing, cwd: AbsolutePath, fullPath: string, absoluteHide: seq<string>): (l: Listing)
    ensures l.files.Some? && l.folders.Some?
    ensures IsSubsequence(FilesOf(l), FilesOf(listing)) && IsSubsequence(FoldersOf(l), FoldersOf(listing))
    ensures forall f :: f in FilesOf(l) <==>
              f in FilesOf(listing) && !StartsWithSome(Resolve(cwd, [fullPath, f.name]), absoluteHide)
    ensures forall e :: e in FoldersOf(l) <==>
              e in FoldersOf(listing) && !StartsWithSome(Resolve(cwd, [fullPath, e.name]), absoluteHide)
  {
    Listing(
      Some(RemoveItemsFromList(listing.files.GetOr([]), absoluteHide, FileName, cwd, fullPath)),
      Some(RemoveItemsFromList(listing.folders.GetOr([]), absoluteHide, EntryName, cwd, fullPath)))
  }

  /**
   * `navigation(routeParam, accountName, account)`. A failure is the failure of the
   * admin's listing of the same path, and where the admin gets a listing so does
   * everyone else; a non-admin barred from navigating gets the empty answer.
   */
  function Navigation(fs: FileSystem, basefolder: string, uploadfolder: string, routeParam: string,
                      accountName: string, account: Option<Account>): (r: Result<Listing, FsError>)
    ensures var full := FullListing(fs, basefolder, GetFullPath(uploadfolder, routeParam));
            (accountName == Admin ==> r == full) &&
            (accountName != Admin && !NavigateFlag(account) ==> r == Ok(Empty)) &&
            (r.Err? ==> r == full) &&
            (full.Ok? ==> r.Ok?)
  {
    var fullPath := GetFullPath(uploadfolder, routeParam);
    var uploadRoot := GetFullPath(uploadfolder, "");
    if accountName == Admin then FullListing(fs, basefolder, fullPath)
    else if !NavigateFlag(account) then Ok(Empty)
    else if ShowOf(account).Some? then ShowListing(fs, basefolder, fullPath, uploadRoot, ShowOf(account).value)
    else if HideOf(account).Some? then HideListing(fs, basefolder, fullPath, uploadRoot, HideOf(account).value)
    else FullListing(fs, basefolder, fullPath)
  }

  /** The `show` branch: at the upload root only the shown folders, below it all or nothing. */
  function ShowListing(fs: FileSystem, basefolder: string, fullPath: string, uploadRoot: string, show: seq<string>): (r: Result<Listing, FsError>)
    ensures r.Err? ==> FullListing(fs, basefolder, fullPath).Err?
    ensures FullListing(fs, basefolder, fullPath).Ok? ==>
              r.Ok? &&
              (forall f :: f in FilesOf(r.value) ==> f in FilesOf(FullListing(fs, basefolder, fullPath).value)) &&
              (forall e :: e in FoldersOf(r.value) ==> e in FoldersOf(FullListing(fs, basefolder, fullPath).value))
  {
    if RelativeIsEmpty(fs.cwd, fullPath, uploadRoot) then
      var allFolders :- GetFolders(fs, basefolder, fullPath);
      Ok(ShowAtRoot(allFolders, show))
    else if InShownSubfolder(fullPath, uploadRoot, show) then FullListing(fs, basefolder, fullPath)
    else Ok(Empty)
  }

  /** The `hide` branch: the full listing without the hidden items. */
  function HideListing(fs: FileSystem, basefolder: string, fullPath: string, uploadRoot: string, hideList: seq<string>): (r: Result<Listing, FsError>)
    ensures r.Err? <==> FullListing(fs, basefolder, fullPath).Err?
    ensures r.Ok? ==>
              (forall f :: f in FilesOf(r.value) ==> f in FilesOf(FullListing(fs, basefolder, fullPath).value)) &&
              (forall e :: e in FoldersOf(r.value) ==> e in FoldersOf(FullListing(fs, basefolder, fullPath).value))
  {
    var listing :- FullListing(fs, basefolder, fullPath);
    Ok(HideFrom(listing, fs.cwd, fullPath, AbsoluteHide(fs.cwd, uploadRoot, hideList)))
  }

  /** The files and folders of a listing, null read as empty. */
  function FilesOf(l: Listing): seq<FileInfo> {
    l.files.GetOr([])
  }

  function FoldersOf(l: Listing): seq<Entry> {
    l.folders.GetOr([])
  }

  /** No account is shown a file or folder that the admin would not see at the same path. */
  lemma NonAdminSeesSubset(fs: FileSystem, basefolder: string, uploadfolder: string, routeParam: string,
                           accountName: string, account: Option<Account>)
    ensures var full := FullListing(fs, basefolder, GetFullPath(uploadfolder, routeParam));
            var r := Navigation(fs, basefolder, uploadfolder, routeParam, accountName, account);
            full.Ok? ==>
              r.Ok? &&
              (forall f :: f in FilesOf(r.value) ==> f in FilesOf(full.value)) &&
              (forall e :: e in FoldersOf(r.value) ==> e in FoldersOf(full.value))
  {
    var fullPath := GetFullPath(uploadfolder, routeParam);
    var full := FullListing(fs, basefolder, fullPath);
    var r := Navigation(fs, basefolder, uploadfolder, routeParam, accountName, account);
    if full.Ok? && accountName != Admin && NavigateFlag(account) && ShowOf(account).None? && HideOf(account).Some? {
      var absoluteHide := AbsoluteHide(fs.cwd, GetFullPath(uploadfolder, ""), HideOf(account).value);
      assert r.value == HideFrom(full.value, fs.cwd, fullPath, absoluteHide);
    }
  }

  /** When `show` is present, `hide` makes no difference. */
  lemma ShowIgnoresHide(fs: FileSystem, basefolder: string, uploadfolder: string, routeParam: string,
                        accountName: string, permissions: Option<Flags>, show: seq<string>,
                        hide1: Option<seq<string>>, hide2: Option<seq<string>>)
    ensures Navigation(fs, basefolder, uploadfolder, routeParam, accountName, Some(Account(permissions, Some(show), hide1))) ==
            Navigation(fs, basefolder, uploadfolder, routeParam, accountName, Some(Account(permissions, Some(show), hide2)))
  {
  }

  /** With neither `show` nor `hide`, a navigating account sees the admin's listing. */
  lemma NoFiltersNoFiltering(fs: FileSystem, basefolder: string, uploadfolder: string, routeParam: string,
                             accountName: string, account: Option<Account>)
    requires NavigateFlag(account) && ShowOf(account).None? && HideOf(account).None?
    ensures Navigation(fs, basefolder, uploadfolder, routeParam, accountName, account) ==
            FullListing(fs, basefolder, GetFullPath(uploadfolder, routeParam))
  {
  }

  /** At the upload root, `show` gives no files and exactly the listed folders named with a shown prefix, in order. */
  lemma ShowAtUploadRoot(fs: FileSystem, basefolder: string, uploadfolder: string, routeParam: string,
                         accountName: string, account: Option<Account>)
    requires accountName != Admin && NavigateFlag(account) && ShowOf(account).Some?
    requires RelativeIsEmpty(fs.cwd, GetFullPath(uploadfolder, routeParam), GetFullPath(uploadfolder, ""))
    ensures var fullPath := GetFullPath(uploadfolder, routeParam);
            var r := Navigation(fs, basefolder, uploadfolder, routeParam, accountName, account);
            var listed := GetFolders(fs, basefolder, fullPath);
            r.Ok? ==>
              listed.Ok? && r.value.files == Some([]) &&
              (listed.value.Some? ==> IsSubsequence(FoldersOf(r.value), listed.value.value)) &&
              forall e :: e in FoldersOf(r.value) <==>
                listed.value.Some? && e in listed.value.value && StartsWithSome(e.name, ShowOf(account).value)
  {
  }

  /** Below the upload root, `show` gives all or nothing: the admin's listing exactly when the path starts with a shown folder. */
  lemma ShowBelowRoot(fs: FileSystem, basefolder: string, uploadfolder: string, routeParam: string,
                      accountName: string, account: Option<Account>)
    requires accountName != Admin && NavigateFlag(account) && ShowOf(account).Some?
    requires !RelativeIsEmpty(fs.cwd, GetFullPath(uploadfolder, routeParam), GetFullPath(uploadfolder, ""))
    ensures var fullPath := GetFullPath(uploadfolder, routeParam);
            Navigation(fs, basefolder, uploadfolder, routeParam, accountName, account) ==
              (if InShownSubfolder(fullPath, GetFullPath(uploadfolder, ""), ShowOf(account).value)
               then FullListing(fs, basefolder, fullPath)
               else Ok(Empty))
  {
  }

  /** An empty `show` list shows nothing anywhere (it is still present, so `hide` is not consulted). */
  lemma EmptyShowShowsNothing(fs: FileSystem, basefolder: string, uploadfolder: string, routeParam: string,
                              accountName: string, account: Option<Account>)
    requires accountName != Admin && ShowOf(account) == Some([])
    ensures var r := Navigation(fs, basefolder, uploadfolder, routeParam, accountName, account);
            r.Ok? ==> r.value == Empty
  {
    var fullPath := GetFullPath(uploadfolder, routeParam);
    var uploadRoot := GetFullPath(uploadfolder, "");
    var r := Navigation(fs, basefolder, uploadfolder, routeParam, accountName, account);
    if r.Ok? && NavigateFlag(account) && RelativeIsEmpty(fs.cwd, fullPath, uploadRoot) {
      var allFolders := GetFolders(fs, basefolder, fullPath).value;
      assert r.value == ShowAtRoot(allFolders, []);
      if allFolders.Some? {
        FilterDropsAll(allFolders.value, (e: Entry) => StartsWithSome(e.name, []));
      }
    }
  }

  /**
   * With `hide` (and no `show`), an item is listed exactly when the admin lists it and
   * its path resolved against the requested directory starts with no hidden path.
   */
  lemma HideRemovesHidden(fs: FileSystem, basefolder: string, uploadfolder: string, routeParam: string,
                          accountName: string, account: Option<Account>)
    requires accountName != Admin && NavigateFlag(account) && ShowOf(account).None? && HideOf(account).Some?
    ensures var fullPath := GetFullPath(uploadfolder, routeParam);
            var full := FullListing(fs, basefolder, fullPath);
            var r := Navigation(fs, basefolder, uploadfolder, routeParam, accountName, account);
            var hidden := AbsoluteHide(fs.cwd, GetFullPath(uploadfolder, ""), HideOf(account).value);
            full.Ok? ==>
              r.Ok? && r.value.files.Some? && r.value.folders.Some? &&
              (forall f :: f in FilesOf(r.value) <==>
                 f in FilesOf(full.value) && !StartsWithSome(Resolve(fs.cwd, [fullPath, f.name]), hidden)) &&
              (forall e :: e in FoldersOf(r.value) <==>
                 e in FoldersOf(full.value) && !StartsWithSome(Resolve(fs.cwd, [fullPath, e.name]), hidden))
  {
  }

  /**
   * `show` compares raw strings: a shown folder `y` also opens every sibling whose name
   * merely starts with `y` ("docs" opens "docs2").
   */
  lemma ShowPrefixOpensSibling(configured: Option<string>, home: string, x: string, y: string)
    requires Plain(x) && Plain(y) && Strings.StartsWith(x, y)
    ensures var upload := UploadFolder(BaseFolder(configured, home));
            InShownSubfolder(GetFullPath(upload, x), GetFullPath(upload, ""), [y])
  {
    var upload := UploadFolder(BaseFolder(configured, home));
    UploadJoin(configured, home, x);
    UploadJoin(configured, home, y);
    Strings.StartsWithBehind(upload + "/", x, y);
    assert Strings.StartsWith(GetFullPath(upload, x), Join(GetFullPath(upload, ""), [y][0]));
  }

  /** The upload root is in normal form, so the request path "" maps to it unchanged. */
  lemma UploadRootNormal(configured: Option<string>, home: string)
    ensures var upload := UploadFolder(BaseFolder(configured, home));
            upload == Render(IsAbsolute(upload), Segments(upload), false) && Segments(upload) != [] &&
            GetFullPath(upload, "") == upload
  {
    var b := BaseFolder(configured, home);
    var upload := UploadFolder(b);
    BaseFolderShape(configured, home);
    FolderNamesArePlain();
    JoinPlain(b, DataFolder);
    UploadFolderExtendsBase(configured, home);
    assert upload[|upload| - 1] == 'a';
  }

  /** A request path that is one component `x` maps to the upload root, "/" and `x`. */
  lemma UploadJoin(configured: Option<string>, home: string, x: string)
    requires Plain(x)
    ensures var upload := UploadFolder(BaseFolder(configured, home));
            GetFullPath(upload, x) == upload + "/" + x && GetFullPath(upload, "") == upload
  {
    var upload := UploadFolder(BaseFolder(configured, home));
    UploadRootNormal(configured, home);
    JoinPlain(upload, x);
    RenderSnoc(IsAbsolute(upload), Segments(upload), x);
  }

  /** The request path ".." passes the guard and gives the admin the listing of the storage root itself. */
  lemma ParentRouteListsStorageRoot(fs: FileSystem, configured: Option<string>, home: string, account: Option<Account>)
    ensures var b := BaseFolder(configured, home);
            var r := Navigation(fs, b, UploadFolder(b), "..", Admin, account);
            ReadDir(fs, b).Ok? ==>
              r.Ok? && r.value.folders == Some(Filter(ReadDir(fs, b).value, IsDirectory)) && r.value.files.Some?
  {
    ParentOfUploadsIsAccepted(configured, home);
  }

  /**
   * An account whose `permissions` leave `navigate` out may navigate here, while the
   * permission table built for the same account denies navigation.
   */
  lemma NavigateDefaultsDisagree(account: Account)
    requires account.permissions.Some? && account.permissions.value.navigate.None?
    ensures NavigateFlag(Some(account))
    ensures SetPermissions(false, Some(account)).Ok? && !SetPermissions(false, Some(account)).value.canNavigate
  {
  }
}
