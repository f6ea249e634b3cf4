# pixel_project server core, modelled in Dafny

This project models the server of a small self-hosted file cloud. The server is written in TypeScript on Express, Sequelize and BullMQ. The model covers five parts.

- **Moderation.** Users upload files. Each file is stored as a `pending` row, and a `check-file` job is queued for it. A worker decodes the bytes and looks for banned words. It then writes `rejected` (with a reason), `approved`, or `failed` into the row. There are two workers: the current one ignores letter case, and the older one matches case-sensitively against four fixed words.
- **Owner-scoped lookups** of the stored files.
- **Navigation.** An account browses the upload folder. The admin sees everything. Other accounts are filtered by their `navigate` flag, then by a `show` list, or else by a `hide` list. All tests are raw string-prefix tests on paths built with Node's POSIX `path.join`/`path.resolve`.
- **Storage-root guard and archives.** Paths must pass a guard against the storage root. Archives get the first free `name.zip` or `name(i).zip` name.
- **Accounts.** The authentication middleware's permission table and token extraction, and user registration and login over a user table.

Modules follow the source files:

| module | models |
|---|---|
| `Strings`, `Paths`, `Sequences`, `Wrappers` | JavaScript `startsWith`/`includes`/`toLowerCase`/`split`/`join`, Node `path`, `Array.filter`, null-or-value and value-or-error results |
| `ErrorMessages` | server/constants/errorMessages.ts |
| `FileModel` | server/models/file.model.ts, with the table as a class over a map and an id counter |
| `Moderation` | server/services/queue/file.processor.ts |
| `LegacyModeration` | server/functions/files/fileProcessor.ts |
| `Settings` | server/utils/settings.ts |
| `PathValidator` | server/utils/pathvalidator.ts |
| `FilesFolders` | server/utils/filesfolders.ts |
| `Zip` | server/utils/zip.ts |
| `FileService`, `Navigation` | server/services/file.service.ts |
| `Authenticator` | server/middleware/authenticator.ts |
| `UserService` | server/services/user.service.ts |

Some of the code's behaviour is easy to misread. The model follows the code:

- **Approval keeps the old reason.** The `reason` column is nullable (server/types/interfaces/FileAttributes.ts:7), and a reader might expect an approved file to have none. The worker writes only the status on approval (server/services/queue/file.processor.ts:44-47), so a re-approved file keeps an old reason (`Moderation.ReapprovalKeepsStaleReason`).
- **Terminal statuses can change.** The worker never reads the current status before writing, so an approved, rejected or failed row is overwritten by every run of a job for it (`Moderation.TerminalStatusIsOverwritten`).
- **The path guard lets `..` through.** The guard only tests that the joined path starts with the storage root (server/utils/pathvalidator.ts:17). So `..` and sibling folders of the upload folder pass (`PathValidator.ClimbingOutOfUploadsPasses`, `Navigation.ParentRouteListsStorageRoot`).
- **An upload failure stops the loop.** The upload loop has no per-file error handling, so a failure on one file ends it and later files are not stored (`FileService.UploadFiles`).
- **The default for `navigate` disagrees.** A missing `navigate` flag allows navigation in the service but denies it in the permission table (`Navigation.NavigateDefaultsDisagree`).

## Model

| member | source | states |
|---|---|---|
| ErrorMessages.ContainBannedWords | server/constants/errorMessages.ts:78 | the reason starts with "Contains banned words: "; a single word follows it with no separator |
| ErrorMessages.BannedWordsOf | server/constants/errorMessages.ts:78 | the reader of rejection reasons answers exactly for strings that start with the rejection prefix |
| ErrorMessages.ContainBannedWordsRoundTrip | server/constants/errorMessages.ts:78 | the words read back from a rejection reason are the words it was built from, in order, when no word holds a comma |
| ErrorMessages.FailureReasonIsNotRejection | server/constants/errorMessages.ts:70 | "Error processing file" is never read as a rejection reason |
| ErrorMessages.FileApprovedIdentifiesFile | server/constants/errorMessages.ts:80 | approval lines for different ids are different |
| ErrorMessages.FileRejectedDueIdentifies | server/constants/errorMessages.ts:79 | equal rejection lines have the same id and the same joined word list |
| ErrorMessages.FileRejectedDue | server/constants/errorMessages.ts:79 | the rejection log line starts with "File #" and the id's decimal digits |
| ErrorMessages.FileApproved | server/constants/errorMessages.ts:80 | the approval log line starts with "File #" and the id's decimal digits and ends with " approved after processing." |
| FileModel.StatusNameInjective | server/models/file.model.ts:50-54 | the four stored status strings are pairwise different |
| FileModel.SetStatus | server/services/queue/file.processor.ts:44-47 | an update by id keeps the key set, changes only that row and only its status |
| FileModel.SetStatusAndReason | server/services/queue/file.processor.ts:30-35 | an update by id keeps the key set, changes only that row, and sets its status and reason |
| FileModel.FileTable.constructor | server/models/file.model.ts:27-59 | the table starts empty with the counter at 1 |
| FileModel.FileTable.Create | server/models/file.model.ts:29-58 | the new row takes the counter's id, unused before, is pending with no reason, is added and nothing else changes; the counter advances |
| FileModel.FileTable.UpdateStatus | server/services/queue/file.processor.ts:44-47 | the rows become SetStatus of the old rows; the table invariant holds |
| FileModel.FileTable.UpdateStatusAndReason | server/services/queue/file.processor.ts:62-68 | the rows become SetStatusAndReason of the old rows; the table invariant holds |
| Sequences.Filter | server/services/queue/file.processor.ts:24-26 | `filter` keeps the order (the result is a subsequence), and an element is kept iff it is in the input and passes |
| Moderation.FoundWords | server/services/queue/file.processor.ts:24-26 | the found words are an order-preserving sublist of the banned list: a word is found iff it is listed and occurs in the content ignoring ASCII case, with its multiplicity kept |
| Moderation.Scan | server/services/queue/file.processor.ts:24-53 | scanning never fails; it approves iff no listed word is found, and otherwise rejects with exactly the found words, a non-empty list of listed words |
| Moderation.MatchesIgnoringCase | server/services/queue/file.processor.ts:25 | the empty word always matches, and a word equal to the content up to ASCII case matches it |
| Moderation.Outcome | server/services/queue/file.processor.ts:17-69 | a run fails iff the job has no bytes or the first write throws; otherwise it is the scan of the decoded content |
| Moderation.ApplyVerdict | server/services/queue/file.processor.ts:28-68 | only status and reason change; rejection stores the banned-words reason, failure the fixed reason, approval leaves the reason as it was |
| Moderation.Moderate | server/services/queue/file.processor.ts:30-68 | the job's row becomes the verdict applied to it (status and reason as ApplyVerdict states); every other row and the key set are unchanged; a missing id changes nothing |
| Moderation.HandleJob | server/services/queue/file.processor.ts:16-70 | after the handler the rows are Moderate(old rows, fileId, Outcome); the counter and the table invariant are kept |
| Moderation.ApplyVerdictIgnoresStatus | server/services/queue/file.processor.ts:30-35 | the row written does not depend on the row's current status |
| Moderation.RedeliveryIsIdempotent | server/services/queue/file.processor.ts:17-53 | running the same job twice leaves the table as running it once |
| Moderation.TerminalStatusIsOverwritten | server/services/queue/file.processor.ts:30-47 | a row already approved, rejected or failed gets the new verdict's status |
| Moderation.FirstRunReasonMatchesStatus | server/services/queue/file.processor.ts:28-68 | on a fresh pending row, a reason is present after one run iff the file was rejected or failed |
| Moderation.ReapprovalKeepsStaleReason | server/services/queue/file.processor.ts:44-47 | rejecting and then approving a row leaves an approved row that still carries the rejection reason |
| Moderation.RejectionReasonNamesFoundWords | server/services/queue/file.processor.ts:28-35 | a rejected row's reason reads back as exactly the found words, when no banned word holds a comma |
| Moderation.RejectsMixedCaseWord | server/services/queue/file.processor.ts:21-35 | "Hello BADWORD1 world" against ["badword1","badword2"] is rejected with reason "Contains banned words: badword1" |
| LegacyModeration.LegacyFoundWords | server/functions/files/fileProcessor.ts:28 | a word is found iff it is one of the four fixed words and occurs case-sensitively in the content |
| LegacyModeration.LegacyReason | server/functions/files/fileProcessor.ts:34 | the inline reason template is the shared ContainBannedWords text |
| LegacyModeration.LegacyFailureReasonIsShared | server/functions/files/fileProcessor.ts:49 | the older worker's failure reason is the shared "Error processing file" |
| LegacyModeration.LegacyOutcome | server/functions/files/fileProcessor.ts:13-52 | a run fails iff there are no bytes or the first write throws; it rejects iff some fixed word is found, with those words |
| LegacyModeration.LegacyHandleJob | server/functions/files/fileProcessor.ts:12-53 | after the handler the rows are Moderate(old rows, fileId, LegacyOutcome); the counter and the invariant are kept |
| LegacyModeration.ExactMatchIgnoresCase | server/functions/files/fileProcessor.ts:28 | a case-sensitive occurrence is also a case-insensitive one |
| LegacyModeration.LegacyFindsNoMoreThanCurrent | server/functions/files/fileProcessor.ts:28 | every word the older worker finds, the current worker finds with the same list |
| LegacyModeration.LegacyWordsAreLowerCase | server/functions/files/fileProcessor.ts:7 | the four fixed words are unchanged by lower-casing |
| LegacyModeration.SameWordsOnLowerCaseContent | server/functions/files/fileProcessor.ts:28 | on lower-case content both workers find the same words in the same order |
| LegacyModeration.UpperCaseSlipsThroughLegacy | server/functions/files/fileProcessor.ts:28 | "BADWORD1" passes the older worker but the current worker finds a banned word in it |
| LegacyModeration.LegacyMissesUpperCase | server/functions/files/fileProcessor.ts:28 | none of the four lower-case words occurs case-sensitively in "BADWORD1" |
| Settings.BaseFolderShape | server/utils/settings.ts:24 | the storage root is the normalised configured folder (or home) plus the segment "localcloud", in normal form, with the same absoluteness |
| Settings.BaseFolder | server/utils/settings.ts:24 | the storage root is in normal form |
| Settings.UploadFolder | server/utils/settings.ts:25 | the upload root is in normal form |
| Settings.UploadFolderExtendsBase | server/utils/settings.ts:24-25 | the upload root is the storage root followed by "/data" |
| Settings.UploadParentIsBase | server/utils/settings.ts:24-25 | joining ".." onto the upload root gives the storage root |
| Settings.ParsedSettings.constructor | server/utils/settings.ts:21 | the parsed object holds the configured folder and the accounts, with no upload folder yet |
| Settings.ParsedSettings.DeriveFolders | server/utils/settings.ts:24-25 | `basefolder` becomes the storage root, then `uploadfolder` becomes the storage root plus "/data"; the accounts are untouched |
| PathValidator.AcceptsAnyExtension | server/utils/pathvalidator.ts:17 | any string that begins with the storage root passes the guard, segment boundary or not |
| PathValidator.IsPathValid | server/utils/pathvalidator.ts:14-18 | the storage root itself passes, and a passing path is at least as long as the root; with OnlyPrefixedPathsPass, a path passes iff it is the root followed by a suffix |
| PathValidator.OnlyPrefixedPathsPass | server/utils/pathvalidator.ts:14-18 | a path passes the guard iff it is at least as long as the storage root and equals the root followed by the rest of the path |
| PathValidator.DoesPathExist | server/utils/pathvalidator.ts:26-33 | true iff the path resolved against the working directory is an existing path; a missing path answers false, never a failure; nothing exists on an empty disk |
| PathValidator.RejectsShorter | server/utils/pathvalidator.ts:17 | a string shorter than the storage root never passes |
| PathValidator.ClimbOutOfUploads | server/services/file.service.ts:29-32 | joining "../x" onto the upload root gives the storage root plus "/x" |
| PathValidator.SiblingOfData | server/utils/pathvalidator.ts:16-17 | the storage root plus "/x" never lies below the storage root plus "/data/" |
| PathValidator.ClimbingOutOfUploadsPasses | server/utils/pathvalidator.ts:14-18 | a request path "../x" passes the guard although it is outside the upload root |
| FilesFolders.ReadDir | server/utils/filesfolders.ts:20 | reading succeeds iff the resolved path is a directory, and gives its entries |
| FilesFolders.FileInfos | server/utils/filesfolders.ts:21-27 | one `{name, size}` per regular-file entry, in listing order: the i-th reported file is the i-th regular-file entry, so duplicates and order are kept |
| FilesFolders.GetFiles | server/utils/filesfolders.ts:16-28 | null when the guard fails; otherwise a failure iff the directory cannot be read, else the regular files with sizes in listing order, as FileInfos of the entries |
| FilesFolders.GetFolders | server/utils/filesfolders.ts:36-42 | null when the guard fails; otherwise a failure iff the directory cannot be read, else exactly the filter of its entries to directories: order and repeats kept |
| FilesFolders.RemoveItemsFromList | server/utils/filesfolders.ts:53-67 | the result is an order-preserving sublist; an item stays iff its path resolved against `pathname` starts with no entry of the remove list |
| FilesFolders.RemoveNothing | server/utils/filesfolders.ts:59-66 | an empty remove list returns the list unchanged |
| FilesFolders.RemoveIdempotent | server/utils/filesfolders.ts:59-66 | removing twice is removing once |
| FilesFolders.RemovePlainPaths | server/utils/filesfolders.ts:60-64 | with an empty `attr`, the item itself is the path that is resolved and tested |
| Zip.ZipNamePlain | server/utils/zip.ts:17 | an archive name built from a folder name is a single path component |
| Zip.ZipNameInjective | server/utils/zip.ts:30 | different attempts give different archive names |
| Zip.ZipName | server/utils/zip.ts:17-30 | an archive name starts with the folder name and ends with ".zip" |
| Zip.Candidate | server/utils/zip.ts:17-31 | every attempted archive path is in normal form |
| Zip.CandidateLocation | server/utils/zip.ts:18-31 | every attempt lies in the folder's parent directory and is named after the folder |
| Zip.CandidatesDistinct | server/utils/zip.ts:28-40 | different attempts resolve to different locations, which is why the probing loop ends |
| Zip.Disk.WriteArchive | server/utils/zip.ts:23 | writing the archive adds exactly its resolved path to the existing paths |
| Zip.ZipFolder | server/utils/zip.ts:15-41 | for a normalised path (all `createZip` passes), the target is the first attempt whose path did not exist: it did not exist before, every earlier attempt did, and only the target is added |
| FileService.ParentOfUploadsIsAccepted | server/services/file.service.ts:56-65 | the request path ".." maps to the storage root, which passes the guard |
| FileService.GetFullPath | server/services/file.service.ts:29-32 | the full path is in normal form, and a one-component request path adds exactly that component to the upload root's segments |
| FileService.CreateZip | server/services/file.service.ts:55-72 | an unguarded path fails with "Error zipping folder:" and writes nothing; otherwise a fresh archive lands beside the folder |
| FileService.JobQueue.Add | server/services/file.service.ts:254-257 | the job is appended at the end of the queue |
| FileService.CreatedCount | server/services/file.service.ts:238-259 | at most one row per file is created before the loop stops |
| FileService.QueuedCount | server/services/file.service.ts:238-259 | no more jobs than rows are queued, and fewer exactly when the enqueue of a file throws |
| FileService.UploadFiles | server/services/file.service.ts:238-259 | files are taken in order; file k gets a pending row under id counter+k and then a "check-file" job with that id and its bytes; a fault stops the loop, keeps what was written, and is thrown |
| FileService.CreatedRowsAt | server/services/file.service.ts:240-245 | the rows created for n files hold exactly the ids start to start+n-1, each the new pending row for its file |
| FileService.EnqueuedAt | server/services/file.service.ts:254-257 | job k of an upload names the id start+k and carries the bytes of file k |
| FileService.CreatedRowsFresh | server/services/file.service.ts:240-245 | the new rows take one new id per file, none of them used before, each pending, without a reason and owned by the uploader |
| FileService.JobsBackedByPendingRows | server/services/file.service.ts:240-257 | every queued job names a row created by the same upload, pending and holding the job's bytes |
| FileService.OrphanRowOnEnqueueFailure | server/services/file.service.ts:240-257 | when the enqueue of file k throws, its row exists and no job names it |
| FileService.GetFileById | server/services/file.service.ts:267-272 | a row is returned iff the id is stored and owned by the user, and the row returned is the one stored under that id |
| FileService.GetAllUserFiles | server/services/file.service.ts:279-282 | exactly the rows owned by the user |
| FileService.LookupsAgree | server/services/file.service.ts:267-282 | a file found by id is among the owner's files, and each of the owner's files is found by its id |
| FileService.NoForeignFiles | server/services/file.service.ts:267-282 | another user's file is never returned, by id or in the list |
| Navigation.FullListing | server/services/file.service.ts:157-158 | the unfiltered answer fails iff the path passes the guard and cannot be read; otherwise it is getFiles and getFolders |
| Navigation.NavigateFlag | server/services/file.service.ts:162 | navigation is refused only when the account's `navigate` flag is explicitly false |
| Navigation.ShowAtRoot | server/services/file.service.ts:179-184 | no files; the folders are an order-preserving sublist, a folder being kept iff its name starts with some `show` entry; a null listing gives the empty answer |
| Navigation.ShowListing | server/services/file.service.ts:175-197 | the `show` branch fails only where the unfiltered listing fails, and otherwise lists no file or folder the unfiltered listing lacks |
| Navigation.InShownSubfolder | server/services/file.service.ts:187-189 | no path is inside an empty `show` list, and each shown folder's own path is inside it |
| Navigation.HideListing | server/services/file.service.ts:201-222 | the `hide` branch fails iff the unfiltered listing fails, and otherwise lists no file or folder the unfiltered listing lacks |
| Navigation.HideFrom | server/services/file.service.ts:210-222 | both lists become non-null order-preserving sublists; an item is kept iff it was listed and its path resolved under the requested path starts with no hidden path |
| Navigation.AbsoluteHide | server/services/file.service.ts:205-207 | each hidden entry becomes the resolved join of the upload root and the entry |
| Navigation.Navigation | server/services/file.service.ts:131-229 | the admin gets the unfiltered answer; a barred account gets the empty answer; any failure is the admin's failure for the same path, and wherever the admin gets an answer so does everyone |
| Navigation.NonAdminSeesSubset | server/services/file.service.ts:131-229 | no account is shown a file or folder the admin is not shown at the same path |
| Navigation.ShowIgnoresHide | server/services/file.service.ts:175-201 | with `show` present, `hide` makes no difference |
| Navigation.NoFiltersNoFiltering | server/services/file.service.ts:226-228 | with neither list, a navigating account gets the admin's answer |
| Navigation.ShowAtUploadRoot | server/services/file.service.ts:177-184 | at the upload root, `show` gives no files and exactly the listed folders named with a shown prefix, in order |
| Navigation.ShowBelowRoot | server/services/file.service.ts:185-197 | below the root, `show` gives the full answer iff the path starts with the join of the root and some entry, else the empty answer |
| Navigation.EmptyShowShowsNothing | server/services/file.service.ts:175-197 | an empty `show` list shows nothing anywhere |
| Navigation.HideRemovesHidden | server/services/file.service.ts:201-222 | with `hide`, an item is listed iff the admin lists it and its resolved path starts with no hidden path; null lists become empty |
| Navigation.ShowPrefixOpensSibling | server/services/file.service.ts:187-188 | a shown folder "docs" also opens every sibling whose name starts with "docs", such as "docs2" |
| Navigation.UploadRootNormal | server/services/file.service.ts:176 | the upload root is in normal form, so `getFullPath("")` is the upload root itself |
| Navigation.UploadJoin | server/services/file.service.ts:29-32 | a one-component request path maps to the upload root, "/" and the component |
| Navigation.ParentRouteListsStorageRoot | server/services/file.service.ts:136-159 | the request path ".." gives the admin the listing of the storage root itself |
| Navigation.NavigateDefaultsDisagree | server/services/file.service.ts:162-169 | an account without a `navigate` flag may navigate here, while its permission table denies navigation |
| Authenticator.Granted | server/middleware/authenticator.ts:30-35 | `flag ?? false` is true iff the flag is explicitly true |
| Authenticator.SetPermissions | server/middleware/authenticator.ts:18-38 | the admin gets all six permissions; otherwise it fails iff the account or its `permissions` is missing, and each permission is true iff its flag is explicitly true |
| Authenticator.DeletePermissionsAgree | server/middleware/authenticator.ts:34-35 | deleting files and deleting folders are always granted together |
| Authenticator.EmptyFlagsGrantNothing | server/middleware/authenticator.ts:29-36 | an empty `permissions` object grants nothing |
| Authenticator.TokenOf | server/middleware/authenticator.ts:53-54 | no header gives no token; an empty header gives the empty token |
| Authenticator.TokenOfBearer | server/middleware/authenticator.ts:54 | "Bearer " followed by a space-free token gives that token back |
| Authenticator.NoSpaceNoToken | server/middleware/authenticator.ts:54-56 | a non-empty header without a space carries no token |
| Authenticator.Authenticate | server/middleware/authenticator.ts:46-58 | without accounts the request proceeds; with accounts it is a 401 iff there is no token, else the token goes to verification |
| Authenticator.BearerReachesVerification | server/middleware/authenticator.ts:53-60 | with accounts, a well-formed bearer header reaches verification with its token |
| Authenticator.NoAccountsIgnoresHeader | server/middleware/authenticator.ts:48-50 | without accounts, the header is never looked at |
| UserService.ErrorText | server/constants/errorMessages.ts:42-45 | the two user errors carry "Already exists" and "Login or Password is incorrect." |
| UserService.UserWithEmail | server/services/user.service.ts:24 | a user is found iff one has the email, and the one found is stored with that email |
| UserService.UserWithId | server/services/user.service.ts:91-93 | a user is found iff one has the id, and the one found is stored with that id |
| UserService.LoginOutcome | server/services/user.service.ts:52-80 | login succeeds iff the email is known and the password compares true against the stored hash; every failure is the same error; a success carries a token signed over the user's id and email |
| UserService.UserWithEmailSnoc | server/services/user.service.ts:32-36 | after appending a user with a new email, lookups by that email find it and other lookups are unchanged |
| UserService.UserTable.constructor | server/services/user.service.ts:11 | the user table starts empty, with the id counter at 1 |
| UserService.UserTable.FindByEmail | server/services/user.service.ts:24 | the scan returns the user UserWithEmail names |
| UserService.UserTable.FindByPk | server/services/user.service.ts:91-93 | the scan returns the user UserWithId names |
| UserService.UserTable.RegisterUser | server/services/user.service.ts:20-41 | a taken email fails with AlreadyExists and leaves the table unchanged; otherwise one user with the next id and the hashed password is appended and returned; ids and emails stay unique |
| UserService.UserTable.LoginUser | server/services/user.service.ts:52-80 | the answer is LoginOutcome of the table |
| UserService.UserTable.GetUserById | server/services/user.service.ts:87-100 | null iff no user has the id; otherwise that user's id, name and email, without the password |
| UserService.RegisteredUserCanLogIn | server/services/user.service.ts:20-80 | a user just registered logs in with the same password when the comparison accepts a password against its own hash |
| UserService.RegistrationKeepsOtherLogins | server/services/user.service.ts:32-36 | registering a user does not change anyone else's login |
| UserService.LoginFailuresIndistinguishable | server/services/user.service.ts:56-68 | an unknown email and a wrong password get the same answer |
| UserService.EmailIdentifiesUser | server/services/user.service.ts:24-29 | with unique emails, the user a login finds is the only one holding that email |

## Left out

- BullMQ, Redis and the worker concurrency of 5 are not modelled. The queue is a sequence, and each handler run is one atomic step.
- Sequelize is not modelled. Tables are an in-memory map (files) or sequence (users). The order of `findAll` is not modelled, so `getAllUserFiles` returns a set. The database id columns are unbounded `nat` with no 32-bit limit.
- UTF-8 decoding is a function parameter `decode`. Unicode `toLowerCase` is modelled for ASCII letters only.
- Only the first database write of a worker run may throw, controlled by a parameter. The write in the catch branch always succeeds. A logging call that throws after a successful write is not modelled.
- bcrypt and JWT are parameters. Hashing, comparison and signing are opaque functions.
- `jwt.verify` and its callback ordering with `next()` are not modelled. `Authenticator.Authenticate` stops at the decision to verify a token.
- Logging is not modelled anywhere. This includes the `fs.access` probe in `navigation`, which only logs.
- File-system changes are not modelled: `createFolder`, `deleteFile`, `deleteFolder` and the storage bootstrapping. The zip library is modelled only as adding the archive path to the set of existing paths.
- A regular file's size is part of its directory entry. A separate `fs.stat` that could fail is not modelled.
- `show` and `hide` are modelled as lists of strings only. Other YAML values are not.
- The multer settings, the controllers, the routes, the route-permission table and the browser client are HTTP or configuration glue.
- LegacyModeration.LegacyFoundWords: its contract states membership only. The list order comes from `Sequences.Filter`, whose contract states it. Restating order over the fixed four-word literal is too costly for the verifier.
- `ProcessingFileError` (server/constants/errorMessages.ts:81) is defined but nothing is proved about it. It is only a log line.
- `Paths.Dirname` and `Paths.Basename` work on normalised segments. They agree with Node only on normalised paths: Node gives `".."` and `"/x/a"` for `"/x/a/.."`, the model `"x"` and `"/"`. `Zip.ZipFolder` therefore requires a normalised path, which every `createZip` call passes because it comes from `path.join`.
- PathValidator.DoesPathExist: the path is resolved against the working directory before the lookup. So `""` answers whether the working directory exists, and a trailing slash after a regular file's name is dropped. `fs.access` fails on both (ENOENT and ENOTDIR). No caller reaches these inputs: `zipFolder` passes only joined, non-empty paths ending in ".zip".
- Email comparison: user lookups by email (`UserService.UserWithEmail`, `UserService.UserTable.FindByEmail`), the taken-email test of `UserService.UserTable.RegisterUser`, and the login lookup in `UserService.LoginOutcome` compare emails by exact string equality. The database is MySQL (server/config/db.ts:10), and the `email` column sets no collation (server/models/user.model.ts:36-40). MySQL's default collations ignore letter case, so the program treats "Alice@x.com" and "alice@x.com" as the same email, while the model treats them as different users. Collations are not modelled.
