/**
 * The parsed settings file (server/utils/settings.ts) and the account entries it holds.
 * After parsing, the loader derives the storage root `basefolder` from the configured
 * folder (or the home directory) and the upload root `uploadfolder` inside it.
 */
module Settings {
  import opened Wrappers
  import opened Paths

  /** The permission flags of an account; each one may be absent. */
  datatype Flags = Flags(
    createFolder: Option<bool>,
    upload: Option<bool>,
    download: Option<bool>,
    navigate: Option<bool>,
    delete: Option<bool>)

  /** An account entry: its permission flags and its optional `show` and `hide` lists. */
  datatype Account = Account(permissions: Option<Flags>, show: Option<seq<string>>, hide: Option<seq<string>>)

  /** The name of the folder created under the configured one. */
  const LocalCloud: string := "localcloud"

  /** The name of the upload folder inside the storage root. */
  const DataFolder: string := "data"

  /** `join(configured ?? homedir(), "localcloud")`. */
  function BaseFolder(configured: Option<string>, home: string): (b: string)
    ensures Normalize(b) == b
  {
    JoinNormal(configured.GetOr(home), LocalCloud);
    Join(configured.GetOr(home), LocalCloud)
  }

  /** `join(basefolder, "data")`. */
  function UploadFolder(basefolder: string): (u: string)
    ensures Normalize(u) == u
  {
    JoinNormal(basefolder, DataFolder);
    Join(basefolder, DataFolder)
  }

  lemma FolderNamesArePlain()
    ensures Plain(LocalCloud) && Plain(DataFolder)
  {
  }

  /**
   * The storage root is the chosen folder, normalised, with "localcloud" appended as
   * its last segment; it keeps the chosen folder's absoluteness and is in normal form.
   */
  lemma BaseFolderShape(configured: Option<string>, home: string)
    ensures var src := configured.GetOr(home);
            var b := BaseFolder(configured, home);
            Segments(b) == Segments(src) + [LocalCloud] &&
            IsAbsolute(b) == IsAbsolute(src) &&
            b == Render(IsAbsolute(b), Segments(b), false) &&
            Basename(b) == LocalCloud
  {
    var src := configured.GetOr(home);
    FolderNamesArePlain();
    JoinPlain(src, LocalCloud);
  }

  /** The upload root is the storage root followed by "/data", so it starts with the storage root. */
  lemma UploadFolderExtendsBase(configured: Option<string>, home: string)
    ensures var b := BaseFolder(configured, home);
            UploadFolder(b) == b + "/" + DataFolder
  {
    var b := BaseFolder(configured, home);
    BaseFolderShape(configured, home);
    FolderNamesArePlain();
    JoinPlain(b, DataFolder);
    RenderSnoc(IsAbsolute(b), Segments(b), DataFolder);
  }

  /** Climbing one level from the upload root lands exactly on the storage root. */
  lemma UploadParentIsBase(configured: Option<string>, home: string)
    ensures var b := BaseFolder(configured, home);
            Join(UploadFolder(b), "..") == b
  {
    var b := BaseFolder(configured, home);
    BaseFolderShape(configured, home);
    FolderNamesArePlain();
    JoinPlain(b, DataFolder);
    JoinParent(UploadFolder(b));
    DirnameBasenameOfJoin(b, DataFolder);
  }

  /** The settings object as the loader leaves it; the other parsed keys are not touched. */
  class ParsedSettings {
    var basefolder: Option<string>
    var uploadfolder: Option<string>
    var accounts: Option<seq<Account>>

    constructor (basefolder: Option<string>, accounts: Option<seq<Account>>)
      ensures this.basefolder == basefolder && this.uploadfolder == None && this.accounts == accounts
    {
      this.basefolder := basefolder;
      this.uploadfolder := None;
      this.accounts := accounts;
    }

    /** Derives the two folders in place: first `basefolder`, then `uploadfolder` from it. */
    method DeriveFolders(home: string)
      modifies this
      ensures basefolder == Some(BaseFolder(old(basefolder), home))
      ensures uploadfolder == Some(UploadFolder(basefolder.value))
      ensures uploadfolder.value == basefolder.value + "/" + DataFolder
      ensures accounts == old(accounts)
    {
      basefolder := Some(Join(basefolder.GetOr(home), LocalCloud));
      uploadfolder := Some(Join(basefolder.value, DataFolder));
      UploadFolderExtendsBase(old(basefolder), home);
    }
  }
}
