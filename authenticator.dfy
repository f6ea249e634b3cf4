/**
 * The authentication middleware (server/middleware/authenticator.ts): the permission
 * table derived from an account entry, and the decision taken on a request before any
 * token is verified.
 */
module Authenticator {
  import opened Wrappers
  import opened Strings
  import opened Settings

  /** The six permissions a request is checked against. */
  datatype Permissions = Permissions(
    canCreateFolder: bool,
    canUpload: bool,
    canDownload: bool,
    canNavigate: bool,
    canDeleteFile: bool,
    canDeleteFolder: bool)

  /** Reading a flag through an absent account or an absent `permissions` object throws. */
  datatype PermissionError = MissingPermissions

  /** `flag ?? false`. */
  function Granted(flag: Option<bool>): (b: bool)
    ensures b <==> flag == Some(true)
  {
    flag.GetOr(false)
  }

  /**
   * `setPermissions(isAdmin, userAccount)`: everything for the admin; otherwise each
   * permission is the account's flag, false when the flag is absent.
   */
  function SetPermissions(isAdmin: bool, account: Option<Account>): (r: Result<Permissions, PermissionError>)
    ensures isAdmin ==> r == Ok(Permissions(true, true, true, true, true, true))
    ensures !isAdmin ==> (r.Err? <==> account.None? || account.value.permissions.None?)
    ensures r.Ok? && !isAdmin ==>
              var flags := account.value.permissions.value;
              (r.value.canCreateFolder <==> flags.createFolder == Some(true)) &&
              (r.value.canUpload <==> flags.upload == Some(true)) &&
              (r.value.canDownload <==> flags.download == Some(true)) &&
              (r.value.canNavigate <==> flags.navigate == Some(true)) &&
              (r.value.canDeleteFile <==> flags.delete == Some(true))
  {
    if isAdmin then Ok(Permissions(true, true, true, true, true, true))
    else if account.None? || account.value.permissions.None? then Err(MissingPermissions)
    else
      var flags := account.value.permissions.value;
      Ok(Permissions(
        Granted(flags.createFolder),
        Granted(flags.upload),
        Granted(flags.download),
        Granted(flags.navigate),
        Granted(flags.delete),
        Granted(flags.delete)))
  }

  /** Files and folders are deletable together or not at all: both read the one `delete` flag. */
  lemma DeletePermissionsAgree(isAdmin: bool, account: Option<Account>)
    ensures var r := SetPermissions(isAdmin, account);
            r.Ok? ==> r.value.canDeleteFile == r.value.canDeleteFolder
  {
  }

  /** A non-admin account with an empty `permissions` object may do nothing. */
  lemma EmptyFlagsGrantNothing(account: Account)
    requires account.permissions == Some(Flags(None, None, None, None, None))
    ensures SetPermissions(false, Some(account)) == Ok(Permissions(false, false, false, false, false, false))
  {
  }

  /** `authHeader && authHeader.split(" ")[1]`: absent for a missing header or one without a space; an empty header is passed on as it is. */
  function TokenOf(header: Option<string>): (token: Option<string>)
    ensures header.None? ==> token.None?
    ensures header == Some("") ==> token == Some("")
  {
    match header
    case None => None
    case Some(h) =>
      if h == "" then Some("")
      else
        var parts := SplitOn(h, " ");
        if |parts| >= 2 then Some(parts[1]) else None
  }

  /** A `Bearer <token>` header gives back the token, provided the token holds no space. */
  lemma TokenOfBearer(t: string)
    requires ' ' !in t
    ensures TokenOf(Some("Bearer " + t)) == Some(t)
  {
    var scheme := "Bearer";
    assert "Bearer " + t == scheme + " " + t;
    SplitOnAppend(scheme, " ", t);
    SplitOnFree(scheme, " ");
    SplitOnFree(t, " ");
  }

  /** A non-empty header without a space carries no token. */
  lemma NoSpaceNoToken(h: string)
    requires h != "" && ' ' !in h
    ensures TokenOf(Some(h)) == None
  {
    SplitOnFree(h, " ");
  }

  /** What `jwtauthenticator` does before the signature check. */
  datatype Decision =
    | Proceed          // no accounts configured: `next()` without a token check
    | Unauthorized     // accounts configured and no token: status 401
    | Verify(token: string)

  /** `jwtauthenticator`: `accountsConfigured` is the truthiness of the parsed `accounts` (an empty list counts). */
  function Authenticate(accountsConfigured: bool, header: Option<string>): (d: Decision)
    ensures !accountsConfigured ==> d == Proceed
    ensures accountsConfigured ==> (d == Unauthorized <==> TokenOf(header).None?)
    ensures d.Verify? ==> accountsConfigured && TokenOf(header) == Some(d.token)
  {
    if !accountsConfigured then Proceed
    else
      var token := TokenOf(header);
      if token.None? then Unauthorized else Verify(token.value)
  }

  /** With accounts configured, a well-formed bearer header always reaches the signature check with its token. */
  lemma BearerReachesVerification(t: string)
    requires ' ' !in t
    ensures Authenticate(true, Some("Bearer " + t)) == Verify(t)
  {
    TokenOfBearer(t);
  }

  /** Without accounts, no header is ever looked at. */
  lemma NoAccountsIgnoresHeader(h1: Option<string>, h2: Option<string>)
    ensures Authenticate(false, h1) == Authenticate(false, h2) == Proceed
  {
  }
}
