/** The SQLite database both controllers share: the user table, the image
    table, and the AUTOINCREMENT counters of each. The table definitions'
    constraints (PRIMARY KEY, UNIQUE, FOREIGN KEY) are the invariant
    `Database.Valid`. */
module Schema {
  import opened Common

  /** The errors the controllers raise: `InvalidData`, `DBError`, and
      sqlite3's `IntegrityError` when it escapes uncaught. */
  datatype Error = InvalidData | DBError | IntegrityError

  /** The outcome of a controller call that either returns or raises. */
  datatype Result<T> = Ok(value: T) | Raised(error: Error)

  /** A row of the image table: image_id, image_name, image_width,
      image_height, image_hash, image_mime, user_id, classified_as
      (NULL until a classifier has run) and created_at. */
  datatype ImageRow = ImageRow(
    id: int,
    name: string,
    width: int,
    height: int,
    hash: string,
    mime: string,
    userId: int,
    classifiedAs: Option<string>,
    createdAt: int)

  /** A row of the user table: user_id, user_username, user_email,
      user_password (already hashed by the caller) and user_type. */
  datatype UserRow = UserRow(
    id: int,
    username: string,
    email: string,
    password: string,
    userType: string)

  function ImageIdOf(r: ImageRow): int { r.id }
  function ImageHashOf(r: ImageRow): string { r.hash }
  function UserIdOf(r: UserRow): int { r.id }
  function UsernameOf(r: UserRow): string { r.username }
  function EmailOf(r: UserRow): string { r.email }

  /** image_id is an AUTOINCREMENT primary key: distinct, and never above
      the largest id issued so far; image_hash is UNIQUE. */
  predicate ImageTableValid(images: seq<ImageRow>, imageSeq: int)
  {
    && DistinctBy(images, ImageIdOf)
    && DistinctBy(images, ImageHashOf)
    && forall i :: 0 <= i < |images| ==> 1 <= images[i].id <= imageSeq
  }

  /** The UNIQUE columns of the user table other than its primary key. */
  predicate UserColumnsUnique(users: seq<UserRow>)
  {
    DistinctBy(users, UsernameOf) && DistinctBy(users, EmailOf)
  }

  /** user_id is an AUTOINCREMENT primary key; user_username and
      user_email are UNIQUE. */
  predicate UserTableValid(users: seq<UserRow>, userSeq: int)
  {
    && DistinctBy(users, UserIdOf)
    && UserColumnsUnique(users)
    && forall i :: 0 <= i < |users| ==> 1 <= users[i].id <= userSeq
  }

  predicate HasUser(users: seq<UserRow>, userId: int)
  {
    exists i :: 0 <= i < |users| && users[i].id == userId
  }

  predicate HasImage(images: seq<ImageRow>, imageId: int)
  {
    exists i :: 0 <= i < |images| && images[i].id == imageId
  }

  /** FOREIGN KEY (user_id) REFERENCES the user table, enforced because every
      connection turns foreign keys on. */
  predicate ForeignKeysHold(images: seq<ImageRow>, users: seq<UserRow>)
  {
    forall i :: 0 <= i < |images| ==> HasUser(users, images[i].userId)
  }

  /** The database file. `userSeq` and `imageSeq` play the part of SQLite's
      sqlite_sequence table: the largest id each table has ever issued, so
      that AUTOINCREMENT never reuses an id, even after a delete. */
  class Database {
    var users: seq<UserRow>
    var images: seq<ImageRow>
    var userSeq: int
    var imageSeq: int

    ghost predicate Valid()
      reads this
    {
      && 0 <= userSeq && 0 <= imageSeq
      && UserTableValid(users, userSeq)
      && ImageTableValid(images, imageSeq)
      && ForeignKeysHold(images, users)
    }

    /** Both tables freshly created and empty. */
    constructor ()
      ensures Valid()
      ensures users == [] && images == [] && userSeq == 0 && imageSeq == 0
    {
      users, images := [], [];
      userSeq, imageSeq := 0, 0;
    }
  }
}
