/**
 * The path guard and the existence probe (server/utils/pathvalidator.ts).
 * The guard is a raw string-prefix test against the storage root: no normalisation,
 * no segment boundary, and the storage root rather than the upload root.
 */
module PathValidator {
  import opened Wrappers
  import Strings
  import opened Paths
  import opened Settings

  /** `pathname.startsWith(basefolder)`. */
  predicate IsPathValid(basefolder: string, pathname: string): (ok: bool)
    ensures ok ==> |basefolder| <= |pathname|
    ensures pathname == basefolder ==> ok
  {
    Strings.StartsWith(pathname, basefolder)
  }

  /**
   * `fs.access` inside a try/catch: true exactly when the resolved path is among the
   * existing ones; it has no failure of its own.
   */
  predicate DoesPathExist(existing: set<string>, cwd: AbsolutePath, pathname: string): (found: bool)
    ensures found <==> Resolve(cwd, [pathname]) in existing
    ensures existing == {} ==> !found
  {
    Resolve(cwd, [pathname]) in existing
  }

  /** The guard passes a path exactly when the path is the storage root followed by some suffix. */
  lemma OnlyPrefixedPathsPass(basefolder: string, pathname: string)
    ensures IsPathValid(basefolder, pathname) <==>
              |basefolder| <= |pathname| && pathname == basefolder + pathname[|basefolder|..]
  {
    if |basefolder| <= |pathname| {
      assert pathname == pathname[..|basefolder|] + pathname[|basefolder|..];
    }
  }

  /** Any string that begins with the storage root passes, even a sibling such as "<root>-other". */
  lemma AcceptsAnyExtension(basefolder: string, suffix: string)
    ensures IsPathValid(basefolder, basefolder + suffix)
  {
    assert (basefolder + suffix)[..|basefolder|] == basefolder;
  }

  /** A path shorter than the storage root never passes. */
  lemma RejectsShorter(basefolder: string, pathname: string)
    requires |pathname| < |basefolder|
    ensures !IsPathValid(basefolder, pathname)
  {
  }

  /** `join(uploadfolder, "../x")` is the storage root followed by "/x". */
  lemma ClimbOutOfUploads(configured: Option<string>, home: string, x: string)
    requires Plain(x)
    ensures var b := BaseFolder(configured, home);
            Join(UploadFolder(b), "../" + x) == b + "/" + x
  {
    BaseFolderShape(configured, home);
    FolderNamesArePlain();
    ClimbToSibling(BaseFolder(configured, home), DataFolder, x);
  }


  /** `b + "/x"` for a component `x` never lies below `b + "/data/"`. */
  lemma SiblingOfData(b: string, x: string)
    requires Plain(x)
    ensures !Strings.StartsWith(b + "/" + x, b + "/" + DataFolder + "/")
  {
    var p, v := b + "/" + x, b + "/" + DataFolder + "/";
    if |x| >= 5 {
      assert p[|b| + 5] == x[4];
      assert x[4] in x;
      assert v[|b| + 5] == '/';
      assert p[..|v|][|b| + 5] != v[|b| + 5];
    } else {
      assert |p| < |v|;
    }
  }

  /**
   * A request path that climbs out of the upload root into a sibling folder of it still
   * passes the guard, although it is not inside the upload root.
   */
  lemma ClimbingOutOfUploadsPasses(configured: Option<string>, home: string, x: string)
    requires Plain(x)
    ensures var b := BaseFolder(configured, home);
            var p := Join(UploadFolder(b), "../" + x);
            IsPathValid(b, p) && !Strings.StartsWith(p, UploadFolder(b) + "/")
  {
    var b := BaseFolder(configured, home);
    ClimbOutOfUploads(configured, home, x);
    UploadFolderExtendsBase(configured, home);
    assert b + "/" + x == b + ("/" + x);
    AcceptsAnyExtension(b, "/" + x);
    SiblingOfData(b, x);
  }
}
