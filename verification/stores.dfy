/**
 * The credential tables (internal/repositories/sharing_repository.go and
 * user_repository.go) as finite maps keyed by their primary keys. Each
 * statement is one transition of the map; connection and driver failures are
 * not modelled, but the table's CHECK constraint on access is.
 */
module Stores {
  import opened Wrappers
  import opened Hex
  import opened Digests

  /** A row of sharing_users; expiration is an instant in Unix nanoseconds. */
  datatype SharingUser = SharingUser(
    linkUrl: string, folderId: string, folderName: string,
    salt: string, otpHash: string, access: string, expiration: int)

  /** A row of users. */
  datatype User = User(
    username: string, email: string, salt: string,
    passwordHash: string, folderId: string, access: string)

  type SharingTable = map<string, SharingUser>
  type UserTable = map<string, User>

  datatype StoreError =
    | UserNotFound
    /** The row violates CHECK (access IN ('r', 'w', 'rw')). */
    | AccessCheckViolated
    /** Reading the random source for a salt failed. */
    | SaltFailed(msg: string)

  /** The access levels the tables' CHECK constraint admits. */
  predicate ValidAccess(access: string) {
    access == "r" || access == "w" || access == "rw"
  }

  /** Every row is stored under its own key and holds an admitted access level. */
  predicate SharingTableOk(t: SharingTable) {
    forall k :: k in t ==> t[k].linkUrl == k && ValidAccess(t[k].access)
  }

  predicate UserTableOk(t: UserTable) {
    forall k :: k in t ==> t[k].username == k && ValidAccess(t[k].access)
  }

  // ---------------------------------------------------------------------
  // sharing_users
  // ---------------------------------------------------------------------

  /**
   * CreateSharingUser: INSERT ... ON CONFLICT (link_url) DO UPDATE SET
   * link_url = EXCLUDED.link_url. The returned record is always the new one,
   * with the OTP stored only as its salted hash; on a conflict the stored row
   * keeps all of its old fields.
   */
  function CreateSharingUser(t: SharingTable, sha256: Sha256, linkUrl: string, folderId: string,
                             folderName: string, salt: string, otp: string, access: string,
                             expiration: int): (r: (Result<SharingUser, StoreError>, SharingTable))
    ensures r.0.Failure? <==> !ValidAccess(access)
    ensures r.0.Failure? ==> r.0.error == AccessCheckViolated && r.1 == t
    ensures r.0.Success? ==>
      && r.0.value == SharingUser(linkUrl, folderId, folderName, salt,
                                  HashPassword(sha256, otp, salt), access, expiration)
      && r.1.Keys == t.Keys + {linkUrl}
      && r.1[linkUrl] == (if linkUrl in t then t[linkUrl] else r.0.value)
    ensures forall k :: k in t && k != linkUrl ==> k in r.1 && r.1[k] == t[k]
  {
    var row := SharingUser(linkUrl, folderId, folderName, salt, HashPassword(sha256, otp, salt), access, expiration);
    if !ValidAccess(access) then (Failure(AccessCheckViolated), t)
    else if linkUrl in t then (Success(row), t)
    else (Success(row), t[linkUrl := row])
  }

  /** GetSharingUser: the row under linkUrl, or "user not found". */
  function GetSharingUser(t: SharingTable, linkUrl: string): (r: Result<SharingUser, StoreError>)
    ensures r.Success? <==> linkUrl in t
    ensures r.Success? ==> r.value == t[linkUrl]
    ensures r.Failure? ==> r.error == UserNotFound
    ensures SharingTableOk(t) && r.Success? ==> r.value.linkUrl == linkUrl && ValidAccess(r.value.access)
  {
    if linkUrl in t then Success(t[linkUrl]) else Failure(UserNotFound)
  }

  /** DeleteSharingUser: removes that one row; "user not found" when no row matched. */
  function DeleteSharingUser(t: SharingTable, linkUrl: string): (r: (Result<(), StoreError>, SharingTable))
    ensures r.0.Failure? <==> linkUrl !in t
    ensures r.0.Failure? ==> r.0.error == UserNotFound && r.1 == t
    ensures r.1.Keys == t.Keys - {linkUrl}
    ensures forall k :: k in r.1 ==> r.1[k] == t[k]
  {
    if linkUrl in t then (Success(()), t - {linkUrl}) else (Failure(UserNotFound), t)
  }

  /** DeleteExpiredUsers: DELETE WHERE expiration < NOW(); a row expiring exactly now stays. */
  function DeleteExpiredUsers(t: SharingTable, now: int): (t': SharingTable)
    ensures forall k :: k in t' <==> k in t && t[k].expiration >= now
    ensures forall k :: k in t' ==> t'[k] == t[k]
  {
    map k | k in t && t[k].expiration >= now :: t[k]
  }

  // ---------------------------------------------------------------------
  // users
  // ---------------------------------------------------------------------

  /**
   * CreateAdminUser with the outcome of reading 16 random bytes for the salt:
   * INSERT ... ON CONFLICT (username) DO UPDATE SET email = EXCLUDED.email.
   * The returned record always carries the fresh salt and hash; on a conflict
   * only the stored email changes.
   */
  function CreateAdminUser(t: UserTable, sha256: Sha256, saltRead: Result<SaltBytes, string>,
                           username: string, email: string, password: string): (r: (Result<User, StoreError>, UserTable))
    ensures r.0.Failure? <==> saltRead.Failure?
    ensures r.0.Failure? ==> r.0.error == SaltFailed(saltRead.error) && r.1 == t
    ensures r.0.Success? ==>
      var salt := GenerateRandomSalt(saltRead).value;
      && r.0.value == User(username, email, salt, HashPassword(sha256, password, salt), "/", "rw")
      && r.1.Keys == t.Keys + {username}
      && r.1[username] == (if username in t then t[username].(email := email) else r.0.value)
    ensures forall k :: k in t && k != username ==> k in r.1 && r.1[k] == t[k]
  {
    match GenerateRandomSalt(saltRead)
    case Failure(e) => (Failure(SaltFailed(e)), t)
    case Success(salt) =>
      var user := User(username, email, salt, HashPassword(sha256, password, salt), "/", "rw");
      if username in t then (Success(user), t[username := t[username].(email := email)])
      else (Success(user), t[username := user])
  }

  /** GetUserByUsername: the row under username, or "user not found". */
  function GetUserByUsername(t: UserTable, username: string): (r: Result<User, StoreError>)
    ensures r.Success? <==> username in t
    ensures r.Success? ==> r.value == t[username]
    ensures r.Failure? ==> r.error == UserNotFound
    ensures UserTableOk(t) && r.Success? ==> r.value.username == username && ValidAccess(r.value.access)
  {
    if username in t then Success(t[username]) else Failure(UserNotFound)
  }

  // ---------------------------------------------------------------------
  // Properties
  // ---------------------------------------------------------------------

  /** Every statement keeps each row under its key and its access within r, w, rw. */
  lemma SharingTableInvariant(t: SharingTable, sha256: Sha256, linkUrl: string, folderId: string,
                              folderName: string, salt: string, otp: string, access: string,
                              expiration: int, now: int)
    requires SharingTableOk(t)
    ensures SharingTableOk(CreateSharingUser(t, sha256, linkUrl, folderId, folderName, salt, otp, access, expiration).1)
    ensures SharingTableOk(DeleteSharingUser(t, linkUrl).1)
    ensures SharingTableOk(DeleteExpiredUsers(t, now))
  {
  }

  lemma UserTableInvariant(t: UserTable, sha256: Sha256, saltRead: Result<SaltBytes, string>,
                           username: string, email: string, password: string)
    requires UserTableOk(t)
    ensures UserTableOk(CreateAdminUser(t, sha256, saltRead, username, email, password).1)
  {
  }

  /** A share created under a fresh link is found again with the values given. */
  lemma CreateThenGet(t: SharingTable, sha256: Sha256, linkUrl: string, folderId: string,
                      folderName: string, salt: string, otp: string, access: string, expiration: int)
    requires linkUrl !in t && ValidAccess(access)
    ensures var (r, t') := CreateSharingUser(t, sha256, linkUrl, folderId, folderName, salt, otp, access, expiration);
      GetSharingUser(t', linkUrl) == r
  {
  }

  /**
   * On a link already taken, the caller is told of the new share while the
   * table still serves the old one.
   */
  lemma ConflictKeepsOldShare(t: SharingTable, sha256: Sha256, linkUrl: string, folderId: string,
                              folderName: string, salt: string, otp: string, access: string, expiration: int)
    requires linkUrl in t && ValidAccess(access)
    ensures var (r, t') := CreateSharingUser(t, sha256, linkUrl, folderId, folderName, salt, otp, access, expiration);
      t' == t && GetSharingUser(t', linkUrl) == Success(t[linkUrl])
  {
  }

  /** Deleting a share makes the link unknown and leaves every other share as it was. */
  lemma DeleteThenGet(t: SharingTable, linkUrl: string, other: string)
    requires other != linkUrl
    ensures GetSharingUser(DeleteSharingUser(t, linkUrl).1, linkUrl) == Failure(UserNotFound)
    ensures GetSharingUser(DeleteSharingUser(t, linkUrl).1, other) == GetSharingUser(t, other)
  {
  }

  /** Purging at the same instant twice removes nothing more. */
  lemma PurgeIdempotent(t: SharingTable, now: int)
    ensures DeleteExpiredUsers(DeleteExpiredUsers(t, now), now) == DeleteExpiredUsers(t, now)
  {
  }

  /** Re-creating an admin changes only the stored email: the old password still matches. */
  lemma AdminRecreateKeepsPassword(t: UserTable, sha256: Sha256, saltRead: Result<SaltBytes, string>,
                                   username: string, email: string, password: string)
    requires username in t && saltRead.Success?
    ensures var (_, t') := CreateAdminUser(t, sha256, saltRead, username, email, password);
      && t'[username].salt == t[username].salt
      && t'[username].passwordHash == t[username].passwordHash
      && t'[username].email == email
  {
  }
}
