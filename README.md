# Image and user stores of the jjdmvision backend, in Dafny

This project models the two SQLite-backed stores of the backend:

- the **image metadata store** (`SQLite3ImageController`). It saves an
  uploaded image's metadata, deduplicated by content hash. It also records a
  classifier's label, answers "the user's current image", and deletes images.
- the **user store** (`SQLite3UserController`). It creates users with
  lower-cased username, email and type, and looks them up by id, username or
  email. It also lists users, updates columns from an allow-list and deletes
  users.

Both controllers work on one database file. `Schema.Database` is that
database. It holds the user table, the image table, and one AUTOINCREMENT
counter per table. Each counter is the largest id the table has ever issued,
as in SQLite's `sqlite_sequence`, so ids are never reused. The tables'
constraints make up the class invariant `Database.Valid`:

- ids are distinct and issued by the counter;
- `image_hash` is UNIQUE;
- `user_username` and `user_email` are UNIQUE;
- every image's `user_id` names an existing user. This foreign key is
  enforced because every connection runs `PRAGMA foreign_keys = ON`.

Every controller method keeps `Valid`.

Each SQL statement is one atomic step, and the model is sequential. A
statement that would break a constraint raises `IntegrityError` and leaves
the tables as they were. The model computes the table the statement asks
for and keeps it only if the constraints still hold, so the database is the
final judge. Lemmas then say exactly when that happens
(`ImageStore.BasicsUniqueIff`, `UserStore.UpdateConflictIff`).

Files:

- `common.dfy`: `Option`, ASCII `Lower` (Python's `str.lower`), and a
  sequence `Filter` (the rows a `DELETE` keeps) with the facts about
  uniqueness that the invariants need.
- `schema.dfy`: the row types, the table invariants and `Database`.
- `image_store.dfy`: functions for each statement of the image
  controller, lemmas about them, and the `ImageController` class.
- `user_store.dfy`: the same for the user controller, including
  `update_user`'s loop as a `while` loop.
- `scenarios.dfy`: client code that uses only the contracts. It covers a
  repeated registration, and an upload, a second owner's re-upload and a
  classification, with both owners registered through `CreateUser`.

A reader of the code would expect an upload of bytes already stored to
return the stored record: the existence check at
db/sqlite/image/sqlite3_image_controller.py:47-53 is commented "Check if a
row for this user already exists", and the hash column is `UNIQUE` (line
31). The model follows what the code does, which differs from that in
several places:

- Re-uploading the same bytes under a *different* owner does not return the
  existing record. The lookup at
  db/sqlite/image/sqlite3_image_controller.py:48-53 is keyed by
  `(user_id, image_hash)`. The INSERT then breaks `UNIQUE(image_hash)`, and
  the caller gets the failure record (`id` and hash empty, `unique` false).
  `Scenarios.UploadAndClassify` shows this.
- Re-saving a hash the user already owns rewrites name, size, hash and mime
  on *every* row of that user (`WHERE user_id = ?`). If the user owns two or
  more images, this always breaks `UNIQUE(image_hash)`, and the save returns
  the failure record (`ImageStore.ReSaveSucceedsIff`).
- Classification is not write-once: `_update_classified_as` overwrites any
  earlier label.
- `_update_image_db` ignores its image id and updates every row of the
  user. It does not catch `IntegrityError`.

## Model

| member | source | states |
|---|---|---|
| `Common.Lower` | db/sqlite/user/sqlite3_user_controller.py:60 | lower-casing keeps the length, turns each upper-case letter into its lower-case letter, keeps every other character, and so leaves no upper-case letter |
| `Common.LowerIdempotent` | db/sqlite/user/sqlite3_user_controller.py:67-74 | lower-casing a stored (already lower-cased) value changes nothing |
| `Schema.ImageTableValid` | db/sqlite/image/sqlite3_image_controller.py:27-31 | defines the image table's constraints: ids are distinct and each lies between 1 and the AUTOINCREMENT counter, and `image_hash` is UNIQUE |
| `Schema.UserTableValid` | db/sqlite/user/sqlite3_user_controller.py:40-46 | defines the user table's constraints: ids are distinct and each lies between 1 and the counter, and `user_username` and `user_email` are each UNIQUE |
| `Schema.ForeignKeysHold` | db/sqlite/image/sqlite3_image_controller.py:36-37 | defines the foreign key: every image's `user_id` is the id of a user row |
| `Schema.Database.Valid` | db/sqlite/image/sqlite3_image_controller.py:25-38 | defines the database invariant: both tables' constraints and the foreign key, which is enforced because every connection turns foreign keys on (db/sqlite/sqlite_db_adaptor.py:14) |
| `Schema.Database.constructor` | db/sqlite/image/sqlite3_image_controller.py:25-38 | freshly created tables are empty, both id counters start at zero, and the constraints hold |
| `ImageStore.ImageController.constructor` | db/sqlite/image/sqlite3_image_controller.py:15-19 | the controller works on the given database |
| `ImageStore.FindOwned` | db/sqlite/image/sqlite3_image_controller.py:48-53 | the existence check finds a row with this owner and this hash, or reports that no row has both |
| `ImageStore.ApplyBasics` | db/sqlite/image/sqlite3_image_controller.py:77-88 | defines the table the user-wide UPDATE asks for: every row with that `user_id` takes the five basic columns, whatever its image id |
| `ImageStore.ApplyBasicsEffect` | db/sqlite/image/sqlite3_image_controller.py:77-88 | the user-wide UPDATE writes name, width, height, hash and mime on every row of the user; it keeps id, owner, classification and created_at, and leaves other users' rows untouched |
| `ImageStore.BasicsUniqueIff` | db/sqlite/image/sqlite3_image_controller.py:31 | SQLite accepts the user-wide UPDATE exactly when each row of the user is the user's only row and no other row holds the new hash |
| `ImageStore.ReSaveSucceedsIff` | db/sqlite/image/sqlite3_image_controller.py:55-58 | re-saving a hash the user already owns succeeds exactly when that row is the user's only row |
| `ImageStore.ApplyBasicsKeepsValid` | db/sqlite/image/sqlite3_image_controller.py:27-37 | an accepted user-wide UPDATE keeps distinct ids, issued ids and the foreign key |
| `ImageStore.ImageController.UpdateBasics` | db/sqlite/image/sqlite3_image_controller.py:77-88 | the UPDATE takes effect exactly when it keeps hashes unique; otherwise the table is unchanged and the error is reported |
| `ImageStore.ImageController.SaveImage` | db/sqlite/image/sqlite3_image_controller.py:42-75 | the result echoes the basic columns. If the user owns a row with this hash, no row is added, the existing id is returned with `unique` false and the user's rows take the basics; if that UPDATE breaks uniqueness, the table is unchanged and the failure record is returned. Otherwise one unclassified row stamped with the clock value is appended, with an id above every earlier id, and the id is returned with `unique` true; if the hash is taken or the user is missing, the table and the counter are unchanged and the failure record is returned |
| `ImageStore.Classify` | db/sqlite/image/sqlite3_image_controller.py:93-94 | defines the table `UPDATE ... SET classified_as = ? WHERE image_id = ?` produces |
| `ImageStore.ClassifyEffect` | db/sqlite/image/sqlite3_image_controller.py:93-94 | setting classified_as gives the row with that id the label, changes no other column of it and no other row, and keeps the constraints |
| `ImageStore.ImageController.UpdateClassifiedAs` | db/sqlite/image/sqlite3_image_controller.py:90-96 | the row with that id, and only it, gets the label; the result is true exactly when such a row existed, and otherwise nothing changes |
| `ImageStore.ImageController.UpdateImage` | db/sqlite/image/sqlite3_image_controller.py:98-102 | it has the same effect as the user-wide UPDATE for the given user, whatever the image id; it returns true, or raises IntegrityError with the table unchanged |
| `ImageStore.CurrentImage` | db/sqlite/image/sqlite3_image_controller.py:104-112 | nothing exactly when the user owns no row; otherwise a row of that user whose created_at is the latest among the user's rows |
| `ImageStore.SavedLatestIsCurrent` | db/sqlite/image/sqlite3_image_controller.py:107 | an image stamped later than all of its owner's other images becomes the owner's current image |
| `ImageStore.DeleteImageRows` | db/sqlite/image/sqlite3_image_controller.py:117 | defines the table `DELETE ... WHERE image_id = ?` leaves: the rows whose id differs, in order |
| `ImageStore.DeleteImageEffect` | db/sqlite/image/sqlite3_image_controller.py:117-118 | deleting by id removes the one row with that id and keeps the rest in order, or changes nothing when the id is absent |
| `ImageStore.DeleteImageKeepsValid` | db/sqlite/image/sqlite3_image_controller.py:27-37 | deleting image rows keeps every constraint of the image table |
| `ImageStore.ImageController.DeleteImage` | db/sqlite/image/sqlite3_image_controller.py:114-119 | the row with that id is removed if present, as a silent no-op otherwise; all other rows and the id counter stay |
| `UserStore.FindUser` | db/sqlite/user/sqlite3_user_controller.py:20-33 | the record of a row whose column equals the value exactly, or nothing exactly when no row matches |
| `UserStore.FindUserUnique` | db/sqlite/user/sqlite3_user_controller.py:41-43 | on a valid table a lookup by id, username or email returns the one matching row |
| `UserStore.GetUserByUsername` | db/sqlite/user/sqlite3_user_controller.py:67-68 | a found user's username is the lower-cased query; nothing exactly when no row holds the lower-cased query |
| `UserStore.GetUserById` | db/sqlite/user/sqlite3_user_controller.py:70-71 | a found user has that id; nothing exactly when no row has it |
| `UserStore.GetUserByEmail` | db/sqlite/user/sqlite3_user_controller.py:73-74 | a found user's email is the lower-cased query; nothing exactly when no row holds the lower-cased query |
| `UserStore.AllUsers` | db/sqlite/user/sqlite3_user_controller.py:76-90 | one record per row |
| `UserStore.AllUsersAgreesWithLookup` | db/sqlite/user/sqlite3_user_controller.py:76-90 | a record is listed exactly when looking up its id returns that record, so every field is copied unchanged |
| `UserStore.NewUserRow` | db/sqlite/user/sqlite3_user_controller.py:60 | defines the inserted row: username, email and type lower-cased, the password as given |
| `UserStore.CreateConflicts` | db/sqlite/user/sqlite3_user_controller.py:42-43 | defines when the INSERT breaks `UNIQUE(user_username)` or `UNIQUE(user_email)`: a stored row holds the lower-cased username or the lower-cased email |
| `UserStore.RegisterAgainConflicts` | tests/test_user_route.py:22-34 | once a user is stored, a registration whose username or email matches it up to letter case conflicts |
| `UserStore.CreatedUserIsFound` | db/sqlite/user/sqlite3_user_controller.py:60-74 | a created user is found by username and by email whatever the case of the query, and by its id |
| `UserStore.ColumnNamed` | db/sqlite/user/sqlite3_user_controller.py:103 | a key is accepted exactly when it is one of the four column names |
| `UserStore.SetWhereId` | db/sqlite/user/sqlite3_user_controller.py:113-114 | defines the table `UPDATE ... SET <column> = ? WHERE user_id = ?` asks for: that column of the user's row takes the value |
| `UserStore.ApplyAttributes` | db/sqlite/user/sqlite3_user_controller.py:109-119 | defines where `update_user` stops: attributes applied in order, each committed; a UNIQUE violation gives DBError and a missing user gives InvalidData, keeping what was committed before |
| `UserStore.UpdateConflictIff` | db/sqlite/user/sqlite3_user_controller.py:42-43 | setting a column on an existing user is accepted exactly when the column is password or type, or no other row holds the value |
| `UserStore.SetWhereIdEffect` | db/sqlite/user/sqlite3_user_controller.py:113-114 | one accepted UPDATE keeps the table valid, changes no id and no other row, stores the value as given, and keeps the updated row's other three columns |
| `UserStore.ApplyCommitsPrefix` | db/sqlite/user/sqlite3_user_controller.py:111-117 | exactly the attributes before the failing one stay applied, and all of them when nothing was raised |
| `UserStore.ApplyErrorCause` | db/sqlite/user/sqlite3_user_controller.py:113-119 | InvalidData exactly when the user has no row and there is an attribute; DBError exactly when the user exists and the UPDATE for the attribute where it stopped would give another row's username or email, so only at an attribute setting one of those two columns |
| `UserStore.ApplyKeepsValid` | db/sqlite/user/sqlite3_user_controller.py:109-119 | whatever is raised, the table stays valid, no id changes and no other user's row changes |
| `UserStore.ApplyToMissingUser` | db/sqlite/user/sqlite3_user_controller.py:115-116 | updating an id with no row raises InvalidData at the first attribute and changes nothing |
| `UserStore.RenamedMixedCaseIsNotFound` | db/sqlite/user/sqlite3_user_controller.py:113-114 | update values are stored verbatim, not lower-cased, so a renamed user with an upper-case letter is not found under that name |
| `UserStore.DeleteUserKeepsValid` | db/sqlite/image/sqlite3_image_controller.py:36-37 | deleting a user, with the cascade into images, keeps every constraint of both tables |
| `UserStore.DeleteUserEffect` | db/sqlite/user/sqlite3_user_controller.py:95-96 | deleting by id removes the one row with that id, or changes nothing when the id is absent |
| `UserStore.UserController.constructor` | db/sqlite/user/sqlite3_user_controller.py:16-18 | the controller works on the given database |
| `UserStore.UserController.CreateUser` | db/sqlite/user/sqlite3_user_controller.py:51-65 | InvalidData exactly when the lower-cased username or email is taken, with the table and counter unchanged; otherwise the lower-cased row is appended under an id above every earlier one and returned |
| `UserStore.UserController.UpdateUser` | db/sqlite/user/sqlite3_user_controller.py:101-119 | a key off the allow-list raises DBError before any change; otherwise the attributes are applied one committed UPDATE at a time, as `ApplyAttributes` describes |
| `UserStore.UserController.DeleteUser` | db/sqlite/user/sqlite3_user_controller.py:92-97 | the row with that id is removed if present, as a no-op otherwise; the user's images go with it through ON DELETE CASCADE (foreign keys are on, db/sqlite/sqlite_db_adaptor.py:14) |

## Left out

- The content hash (SHA-256 over 8 KB reads, db/sqlite/image/util.py) is a foreign library plus file I/O. The model takes the hash as an opaque string argument.
- The clock: `created_at` is SQLite's `CURRENT_TIMESTAMP`; the model takes it as an integer argument `now`, with no assumption of monotonicity.
- Connections, cursors, commits and rollbacks are not modelled as objects. Each statement is atomic. The connection context manager rolls back the statement that raised and keeps what was committed before it.
- Concurrent writers are not modelled; calls run one after another.
- `init_controller` / `shutdown_controller` (CREATE TABLE and DROP TABLE) are modelled only as the invariant and the empty initial database.
- Common.Lower: models Python's `str.lower` on ASCII letters only, not the full Unicode case mapping.
- NULL values: every column except `classified_as` (an `Option`, `None` for NULL) is modelled as non-NULL, because the callers always supply values. `UNIQUE` allowing several NULL hashes is therefore not modelled.
- SQLite's type affinity: `image_name` is declared INTEGER, and a purely numeric file name would be read back as a number. The model keeps names as strings.
- ImageStore.ImageController.SaveImage: returns a seven-field record. The source builds `Image(...)` with seven arguments at db/sqlite/image/sqlite3_image_controller.py:70 and 75, while `Image` is meant to be a four-field frozen dataclass (db/types/image.py:4-9). Were it that dataclass, the seven-argument call would raise `TypeError`: after `conn.commit()` on success, so the table change would stay, and inside the `IntegrityError` handler on failure. The model returns the record the code evidently means to build and does not model that `TypeError`.
- The module and object wiring is assumed to work. As written it does not: `class Image(frozen=True)` (db/types/image.py:5) passes a class keyword that class creation rejects, so the image controller's import at db/sqlite/image/sqlite3_image_controller.py:9 fails; `ImageDataController(ABC, DataController)` (db/image_data_controller.py:7) lists `ABC` before a subclass of it, which has no consistent method resolution order; `SQLiteDBAdaptor.__init__` (db/sqlite/sqlite_db_adaptor.py:9) passes two arguments to a base class without its own `__init__`; and `SQLite3ImageController.__init__` (line 16) passes three arguments where `DataController.__init__` takes one. The model binds each controller directly to the database.
- SQLite's 64-bit integers: ids, widths, heights and both counters are unbounded integers. Binding a Python integer outside 64 bits raises `OverflowError`, which neither `_save_image_to_db` nor `_create_user_impl` catches, and AUTOINCREMENT fails with `SQLITE_FULL` once id 2^63-1 has been issued; `SaveImage` and `CreateUser` always issue the next id.
- ImageStore.CurrentImage: returns the whole row. The source builds an `Image` from six of its columns, and those do not match the record's declared fields. On a tie of `created_at`, the model picks the earliest row; SQLite does not fix an order.
- `db/user_data_controller.py` `create_new_user` (email validation and password hashing) is not part of this model. The model takes the normalised email and the hashed password as given.
- HTTP routes, sessions, the resource-manager singleton, classifiers, chatbots, the chat table and the superseded `db/sqlite/sqlite3_user_controller.py` are not part of this model.
